/** The state of the kernel heap's small-block allocator (`memory/kmalloc.c`) and what its steps keep. */
module KmallocState {
  import opened Seqs
  import opened Arith
  import opened Buckets
  import opened PageLists

  /** Lines 330-335: where the blocks of a page start, and how many there are. */
  function Offset(b: nat): nat { if BlockSize(b) > DESCRIPTOR then BlockSize(b) else DESCRIPTOR }

  function TotalBlocks(b: nat): nat
    requires b < BUCKETS
  {
    OffsetFits(b);
    (PAGE_SIZE - Offset(b)) / BlockSize(b)
  }

  lemma {:induction false} OffsetFits(b: nat)
    requires b < BUCKETS
    ensures BlockSize(b) >= 16 && Offset(b) <= 1024 && 3 * BlockSize(b) <= PAGE_SIZE - Offset(b)
  {
    Pow2Mono(b, 6);
    Pow2Mono(0, b);
    assert Pow2(6) == 64 by { assert Pow2(3) == 8; }
  }

  /** The blocks of the seven buckets, and how many a page holds. */
  lemma {:induction false} BlockCounts()
    ensures forall b: nat :: b < BUCKETS ==>
      BlockSize(b) == [16, 32, 64, 128, 256, 512, 1024][b] && TotalBlocks(b) == [254, 127, 63, 31, 15, 7, 3][b]
    ensures BucketOf(16) == 0 && BucketOf(1024) == 6
  {
    forall b: nat | b < BUCKETS
      ensures BlockSize(b) == [16, 32, 64, 128, 256, 512, 1024][b] && TotalBlocks(b) == [254, 127, 63, 31, 15, 7, 3][b]
    {
      OneSize(b);
    }
    BucketFits(16);
    BucketFits(1024);
  }

  lemma {:induction false} OneSize(b: nat)
    requires b < BUCKETS
    ensures BlockSize(b) == [16, 32, 64, 128, 256, 512, 1024][b] && TotalBlocks(b) == [254, 127, 63, 31, 15, 7, 3][b]
  {
    assert Pow2(0) == 1;
    assert Pow2(2) == 4;
    assert Pow2(4) == 16;
    assert Pow2(6) == 64;
  }

  /** The page is used up: the first block comes right behind the descriptor, at a multiple of its size, and behind
  the last there is no room for another. */
  lemma {:induction false} PageUsedUp(p: nat, b: nat)
    requires b < BUCKETS
    ensures Slot(p, b, 0) == p + if BlockSize(b) > 32 then BlockSize(b) else 32
    ensures Slot(p, b, TotalBlocks(b)) <= p + PAGE_SIZE < Slot(p, b, TotalBlocks(b)) + BlockSize(b)
  {
    OffsetFits(b);
    UsedUp(PAGE_SIZE - Offset(b), BlockSize(b));
  }

  lemma {:induction false} UsedUp(x: nat, s: nat)
    requires s > 0
    ensures x / s * s <= x < x / s * s + s
  {
    assert x == s * (x / s) + x % s;
  }

  /** Block `k` of the page at `p`. */
  function Slot(p: nat, b: nat, k: nat): nat { p + Offset(b) + k * BlockSize(b) }

  ghost predicate IsSlot(p: nat, b: nat, a: nat)
    requires b < BUCKETS
  {
    exists k: nat :: k < TotalBlocks(b) && a == Slot(p, b, k)
  }

  function PageOf(a: nat): nat { a - a % PAGE_SIZE }

  lemma {:induction false} Fits(x: nat, s: nat, k: nat)
    requires s > 0 && k < x / s
    ensures k * s + s <= x
  {
    MulMono(s, k + 1, x / s);
    assert s * (k + 1) == k * s + s;
    assert x == s * (x / s) + x % s;
  }

  lemma {:induction false} Inside(p: nat, a: nat)
    requires p % PAGE_SIZE == 0 && p < a < p + PAGE_SIZE
    ensures a % PAGE_SIZE == a - p
  {
  }

  lemma {:induction false} BlockIn(p: nat, b: nat, k: nat)
    requires b < BUCKETS && k * BlockSize(b) + BlockSize(b) <= PAGE_SIZE - Offset(b)
    ensures p + DESCRIPTOR <= Slot(p, b, k) && Slot(p, b, k) + BlockSize(b) <= p + PAGE_SIZE && BlockSize(b) >= 16
  {
    OffsetFits(b);
  }

  /** A block lies behind the descriptor and inside its page: its address is never page aligned, and
  rounding it down gives the descriptor back. */
  lemma {:induction false} SlotInside(p: nat, b: nat, a: nat)
    requires b < BUCKETS && p % PAGE_SIZE == 0 && IsSlot(p, b, a)
    ensures p + DESCRIPTOR <= a && a + BlockSize(b) <= p + PAGE_SIZE
    ensures a % PAGE_SIZE != 0 && PageOf(a) == p
  {
    OffsetFits(b);
    var k: nat :| k < TotalBlocks(b) && a == Slot(p, b, k);
    Fits(PAGE_SIZE - Offset(b), BlockSize(b), k);
    BlockIn(p, b, k);
    Inside(p, a);
  }

  /** Two blocks of a page do not overlap. */
  lemma {:induction false} SlotsApart(p: nat, b: nat, i: nat, j: nat)
    requires i < j
    ensures Slot(p, b, i) + BlockSize(b) <= Slot(p, b, j)
  {
    MulMono(BlockSize(b), i + 1, j);
    assert BlockSize(b) * (i + 1) == i * BlockSize(b) + BlockSize(b);
  }

  // ----- states -----

  /** Page descriptors and block contents by address, and the heads of each bucket's two page lists. */
  datatype Heap = Heap(pages: Pages, words: map<nat, nat>, free: seq<nat>, full: seq<nat>)

  /** The lists those links make up. */
  datatype Shape = Shape(free: seq<seq<nat>>, full: seq<seq<nat>>, chains: map<nat, seq<nat>>)

  /** The page's free blocks are chained, distinct and its own, and with the blocks in use they make
  up the page. */
  ghost predicate PageOk(h: Heap, g: Shape, p: nat) {
    && p in h.pages && p in g.chains && p > 0 && p % PAGE_SIZE == 0
    && var d, c := h.pages[p], g.chains[p];
      && d.bucket < BUCKETS && d.total == TotalBlocks(d.bucket)
      && Chain(h.words, d.freeList, c) && d.inUse + |c| == d.total
      && forall a :: a in c ==> IsSlot(p, d.bucket, a)
  }

  ghost predicate Sized(h: Heap, g: Shape) {
    |h.free| == |h.full| == |g.free| == |g.full| == BUCKETS
  }

  /** The links of a bucket's lists. */
  ghost predicate LinksOk(h: Heap, g: Shape, b: nat)
    requires Sized(h, g) && b < BUCKETS
  {
    Linked(h.pages, h.free[b], g.free[b]) && Linked(h.pages, h.full[b], g.full[b])
  }

  /** The page is of bucket `b`, and full or not. */
  ghost predicate Belongs(h: Heap, p: nat, b: nat, full: bool) {
    p in h.pages && h.pages[p].bucket == b &&
      (if full then h.pages[p].inUse == h.pages[p].total else h.pages[p].inUse < h.pages[p].total)
  }

  ghost predicate FiledOk(h: Heap, g: Shape, b: nat)
    requires Sized(h, g) && b < BUCKETS
  {
    && (forall p :: p in g.free[b] ==> Belongs(h, p, b, false))
    && (forall p :: p in g.full[b] ==> Belongs(h, p, b, true))
  }

  ghost predicate OnList(h: Heap, g: Shape, p: nat) {
    Sized(h, g) && p in h.pages && h.pages[p].bucket < BUCKETS &&
    (p in g.free[h.pages[p].bucket] || p in g.full[h.pages[p].bucket])
  }

  /** Every page is sound and on the right list of its bucket. */
  ghost predicate Inv(h: Heap, g: Shape) {
    && Sized(h, g)
    && (forall b: nat {:trigger LinksOk(h, g, b)} :: b < BUCKETS ==> LinksOk(h, g, b))
    && (forall b: nat {:trigger FiledOk(h, g, b)} :: b < BUCKETS ==> FiledOk(h, g, b))
    && (forall p {:trigger PageOk(h, g, p)} :: p in h.pages ==> PageOk(h, g, p))
    && (forall p {:trigger OnList(h, g, p)} :: p in h.pages ==> OnList(h, g, p))
  }

  /** The block at `a` is handed out. */
  ghost predicate InUse(h: Heap, g: Shape, a: nat) {
    var p := PageOf(a);
    p in h.pages && p in g.chains && h.pages[p].bucket < BUCKETS && IsSlot(p, h.pages[p].bucket, a) && a !in g.chains[p]
  }

  // ----- a block is handed out -----

  /** Lines 61-64. */
  function Took(h: Heap, p: nat): Heap
    requires p in h.pages && h.pages[p].freeList in h.words
  {
    var d := h.pages[p];
    h.(pages := h.pages[p := d.(inUse := d.inUse + 1, freeList := h.words[d.freeList])])
  }

  ghost function TookShape(g: Shape, p: nat): Shape
    requires p in g.chains && g.chains[p] != []
  {
    g.(chains := g.chains[p := g.chains[p][1..]])
  }

  lemma {:induction false} TookPages(h: Heap, g: Shape, p: nat, q: nat)
    requires PageOk(h, g, p) && PageOk(h, g, q) && g.chains[p] != []
    ensures h.pages[p].freeList == g.chains[p][0] && h.pages[p].freeList in h.words
    ensures PageOk(Took(h, p), TookShape(g, p), q)
  {
    ChainPop(h.words, g.chains[p]);
  }

  /** Taking a block changes no link. */
  lemma {:induction false} TookLinks(h: Heap, g: Shape, p: nat, b: nat)
    requires Sized(h, g) && b < BUCKETS && LinksOk(h, g, b) && p in h.pages && h.pages[p].freeList in h.words
    requires p in g.chains && g.chains[p] != []
    ensures LinksOk(Took(h, p), TookShape(g, p), b)
  {
    LinkedFrame(h.pages, Took(h, p).pages, h.free[b], g.free[b]);
    LinkedFrame(h.pages, Took(h, p).pages, h.full[b], g.full[b]);
  }

  /** The first page of a bucket's free list has a block to give. */
  lemma {:induction false} FirstPage(h: Heap, g: Shape, b: nat)
    requires Inv(h, g) && b < BUCKETS && h.free[b] != 0
    ensures var p := h.free[b];
      g.free[b] != [] && g.free[b][0] == p && PageOk(h, g, p) && Belongs(h, p, b, false) && g.chains[p] != []
  {
    assert LinksOk(h, g, b) && FiledOk(h, g, b);
    assert LinkedAt(h.pages, g.free[b], 0);
    assert g.free[b][0] in g.free[b];
    assert PageOk(h, g, h.free[b]);
  }

  /** While the page does not become full, that is all. */
  lemma {:induction false} TookKeeps(h: Heap, g: Shape, b: nat)
    requires Inv(h, g) && b < BUCKETS && h.free[b] != 0 && h.free[b] in h.pages && h.free[b] in g.chains
    requires g.chains[h.free[b]] != [] && h.pages[h.free[b]].freeList in h.words
    requires h.pages[h.free[b]].inUse + 1 < h.pages[h.free[b]].total
    ensures Inv(Took(h, h.free[b]), TookShape(g, h.free[b]))
  {
    var p := h.free[b];
    var h', g' := Took(h, p), TookShape(g, p);
    FirstPage(h, g, b);
    forall c: nat | c < BUCKETS ensures LinksOk(h', g', c) && FiledOk(h', g', c) {
      assert LinksOk(h, g, c) && FiledOk(h, g, c);
      TookLinks(h, g, p, c);
    }
    forall q | q in h'.pages ensures PageOk(h', g', q) && OnList(h', g', q) {
      assert PageOk(h, g, p) && PageOk(h, g, q) && OnList(h, g, q);
      TookPages(h, g, p, q);
    }
  }

  // ----- a page that became full changes lists -----

  /** Lines 67-77. */
  function Moved(h: Heap, p: nat, b: nat): Heap
    requires p in h.pages && b < |h.free| && b < |h.full|
  {
    Heap(Pushed(Unlinked(h.pages, p), h.full[b], p), h.words, h.free[b := h.pages[p].next], h.full[b := p])
  }

  ghost function MovedShape(g: Shape, p: nat, b: nat): Shape
    requires b < |g.free| && b < |g.full| && g.free[b] != []
  {
    g.(free := g.free[b := g.free[b][1..]], full := g.full[b := [p] + g.full[b]])
  }

  /** Only links differ. */
  ghost predicate SameButLinks(a: Pages, b: Pages) {
    a.Keys == b.Keys &&
    forall p :: p in a ==>
      && b[p].bucket == a[p].bucket && b[p].inUse == a[p].inUse
      && b[p].total == a[p].total && b[p].freeList == a[p].freeList
  }

  /** Pages keep their bucket. */
  ghost predicate SameBuckets(a: Pages, b: Pages) {
    forall p :: p in a && p in b ==> a[p].bucket == b[p].bucket
  }

  lemma {:induction false} RelinkSame(pages: Pages, x: nat)
    requires x in pages
    ensures SameButLinks(pages, Unlinked(pages, x))
  {
  }

  lemma {:induction false} PushSame(pages: Pages, head: nat, x: nat)
    requires x in pages
    ensures SameButLinks(pages, Pushed(pages, head, x))
  {
  }

  lemma {:induction false} RelinkPage(h: Heap, g: Shape, h': Heap, g': Shape, p: nat)
    requires PageOk(h, g, p) && SameButLinks(h.pages, h'.pages) && h'.words == h.words && g'.chains == g.chains
    ensures PageOk(h', g', p)
  {
  }

  /** No page is on two lists. */
  lemma {:induction false} Disjoint(h: Heap, g: Shape, b: nat, c: nat, p: nat)
    requires Sized(h, g) && b < BUCKETS && c < BUCKETS && FiledOk(h, g, b) && FiledOk(h, g, c)
    ensures p in g.free[b] ==> p !in g.full[c]
    ensures b != c && p in g.free[b] ==> p !in g.free[c]
    ensures b != c && p in g.full[b] ==> p !in g.full[c]
  {
  }

  /** Lists `s` and `t` after page 0 of `s` has moved to the front of `t`, and any third list. */
  lemma {:induction false} MoveLists(pages: Pages, s: seq<nat>, t: seq<nat>, u: seq<nat>)
    requires Linked(pages, HeadOf(s), s) && Linked(pages, HeadOf(t), t) && Linked(pages, HeadOf(u), u)
    requires s != [] && s[0] in pages && s[0] != 0
    requires (forall p :: p in s ==> p !in t) && (forall p :: p in u ==> p !in s && p !in t)
    ensures var q := Pushed(Unlinked(pages, s[0]), HeadOf(t), s[0]);
      && Linked(q, pages[s[0]].next, s[1..]) && Linked(q, s[0], [s[0]] + t) && Linked(q, HeadOf(u), u)
  {
    var x, rest := s[0], s[1..];
    assert Drop(s, 0) == rest;
    assert LinkedAt(pages, s, 0);
    UnlinkKeeps(pages, s, 0);
    UnlinkOther(pages, s, 0, t);
    UnlinkOther(pages, s, 0, u);
    var mid := Unlinked(pages, x);
    RelinkSame(pages, x);
    PushKeeps(mid, t, x);
    PushOther(mid, t, x, u);
    assert forall p :: p in rest ==> p in s;
    assert x !in rest;
    PushOther(mid, t, x, rest);
  }

  lemma {:induction false} MovedLinks(h: Heap, g: Shape, b: nat, c: nat)
    requires Sized(h, g) && b < BUCKETS && c < BUCKETS && LinksOk(h, g, b) && LinksOk(h, g, c)
    requires g.free[b] != [] && g.free[b][0] in h.pages && g.free[b][0] != 0
    requires forall p :: p in g.free[b] ==> p !in g.full[b]
    requires b != c ==> forall p :: p in g.free[c] || p in g.full[c] ==> p !in g.free[b] && p !in g.full[b]
    ensures LinksOk(Moved(h, g.free[b][0], b), MovedShape(g, g.free[b][0], b), c)
  {
    if b == c {
      MoveLists(h.pages, g.free[b], g.full[b], []);
    } else {
      MoveLists(h.pages, g.free[b], g.full[b], g.free[c]);
      MoveLists(h.pages, g.free[b], g.full[b], g.full[c]);
    }
  }

  /** The state between lines 64 and 67: sound but for the first page of bucket `b`, which is full. */
  ghost predicate Filling(h: Heap, g: Shape, b: nat) {
    && Sized(h, g) && b < BUCKETS && g.free[b] != []
    && (forall c: nat {:trigger LinksOk(h, g, c)} :: c < BUCKETS ==> LinksOk(h, g, c))
    && (forall p {:trigger PageOk(h, g, p)} :: p in h.pages ==> PageOk(h, g, p))
    && (forall p {:trigger OnList(h, g, p)} :: p in h.pages ==> OnList(h, g, p))
    && (forall c: nat, p {:trigger Belongs(h, p, c, false)} ::
      c < BUCKETS && p in g.free[c] && p != g.free[b][0] ==> Belongs(h, p, c, false))
    && (forall c: nat, p {:trigger Belongs(h, p, c, true)} ::
      c < BUCKETS && p in g.full[c] ==> Belongs(h, p, c, true) && p != g.free[b][0])
    && Belongs(h, g.free[b][0], b, true)
    && (forall c: nat {:trigger g.free[c]} :: c < BUCKETS && c != b ==> g.free[b][0] !in g.free[c])
  }

  lemma {:induction false} TookFills(h: Heap, g: Shape, b: nat)
    requires Inv(h, g) && b < BUCKETS && h.free[b] != 0 && h.free[b] in h.pages && h.free[b] in g.chains
    requires g.chains[h.free[b]] != [] && h.pages[h.free[b]].freeList in h.words
    requires h.pages[h.free[b]].inUse + 1 == h.pages[h.free[b]].total
    ensures Filling(Took(h, h.free[b]), TookShape(g, h.free[b]), b)
  {
    var p := h.free[b];
    var h', g' := Took(h, p), TookShape(g, p);
    FirstPage(h, g, b);
    forall c: nat | c < BUCKETS ensures LinksOk(h', g', c) {
      assert LinksOk(h, g, c);
      TookLinks(h, g, p, c);
    }
    forall q | q in h'.pages ensures PageOk(h', g', q) && OnList(h', g', q) {
      assert PageOk(h, g, p) && PageOk(h, g, q) && OnList(h, g, q);
      TookPages(h, g, p, q);
    }
    assert FiledOk(h, g, b);
    forall c: nat, q | c < BUCKETS && q in g.free[c] && q != p ensures Belongs(h', q, c, false) {
      assert FiledOk(h, g, c);
    }
    forall c: nat, q | c < BUCKETS && q in g.full[c] ensures Belongs(h', q, c, true) && q != p {
      assert FiledOk(h, g, c);
    }
    forall c: nat | c < BUCKETS && c != b ensures p !in g.free[c] {
      assert FiledOk(h, g, c);
    }
  }

  lemma {:induction false} MovedSame(h: Heap, p: nat, b: nat)
    requires p in h.pages && b < |h.free| && b < |h.full|
    ensures SameButLinks(h.pages, Moved(h, p, b).pages)
  {
    RelinkSame(h.pages, p);
    PushSame(Unlinked(h.pages, p), h.full[b], p);
  }

  lemma {:induction false} MovedFiled(h: Heap, g: Shape, b: nat, c: nat)
    requires Filling(h, g, b) && c < BUCKETS && g.free[b][0] in h.pages && Distinct(g.free[b])
    ensures FiledOk(Moved(h, g.free[b][0], b), MovedShape(g, g.free[b][0], b), c)
  {
    var x := g.free[b][0];
    var h', g' := Moved(h, x, b), MovedShape(g, x, b);
    MovedSame(h, x, b);
    forall p | p in g'.free[c] ensures Belongs(h', p, c, false) {
      assert p in g.free[c] && p != x;
      assert Belongs(h, p, c, false);
    }
    forall p | p in g'.full[c] ensures Belongs(h', p, c, true) {
      if p in g.full[c] { assert Belongs(h, p, c, true); }
    }
  }

  /** Moving it restores the invariant. */
  lemma {:induction false} MovedKeeps(h: Heap, g: Shape, b: nat)
    requires Filling(h, g, b) && g.free[b][0] in h.pages
    ensures Inv(Moved(h, g.free[b][0], b), MovedShape(g, g.free[b][0], b))
  {
    var x := g.free[b][0];
    var h', g' := Moved(h, x, b), MovedShape(g, x, b);
    assert LinksOk(h, g, b);
    assert LinkedAt(h.pages, g.free[b], 0);
    MovedSame(h, x, b);
    forall c: nat | c < BUCKETS ensures LinksOk(h', g', c) && FiledOk(h', g', c) {
      assert LinksOk(h, g, c);
      FillingApart(h, g, b, c);
      MovedLinks(h, g, b, c);
      MovedFiled(h, g, b, c);
    }
    forall p | p in h'.pages ensures PageOk(h', g', p) && OnList(h', g', p) {
      assert PageOk(h, g, p) && OnList(h, g, p);
      RelinkPage(h, g, h', g', p);
      MovedOnList(h, g, b, p);
    }
  }

  lemma {:induction false} FillingApart(h: Heap, g: Shape, b: nat, c: nat)
    requires Filling(h, g, b) && c < BUCKETS
    ensures forall p :: p in g.free[b] ==> p !in g.full[b]
    ensures b != c ==> forall p :: p in g.free[c] || p in g.full[c] ==> p !in g.free[b] && p !in g.full[b]
  {
    forall p | p in g.free[b] ensures p !in g.full[b] {
      var room, full := Belongs(h, p, b, false), Belongs(h, p, b, true);
    }
    if b != c {
      forall p | p in g.free[c] || p in g.full[c] ensures p !in g.free[b] && p !in g.full[b] {
        var room, full := Belongs(h, p, b, false), Belongs(h, p, b, true);
        var roomC, fullC := Belongs(h, p, c, false), Belongs(h, p, c, true);
      }
    }
  }

  lemma {:induction false} MovedOnList(h: Heap, g: Shape, b: nat, p: nat)
    requires Filling(h, g, b) && g.free[b][0] in h.pages && OnList(h, g, p)
    ensures OnList(Moved(h, g.free[b][0], b), MovedShape(g, g.free[b][0], b), p)
  {
    var x := g.free[b][0];
    MovedSame(h, x, b);
    assert g.free[b] == [x] + g.free[b][1..];
    var c := h.pages[p].bucket;
    if c == b && p in g.full[b] { assert p in [x] + g.full[b]; }
    if c == b && p == x { assert p in [x] + g.full[b]; }
  }

  // ----- a new page -----

  /** The blocks of a page in address order. */
  function Slots(p: nat, b: nat): (s: seq<nat>)
    requires b < BUCKETS
    ensures |s| == TotalBlocks(b)
  {
    seq(TotalBlocks(b), k requires 0 <= k < TotalBlocks(b) => Slot(p, b, k))
  }

  lemma {:induction false} SlotsDistinct(p: nat, b: nat)
    requires b < BUCKETS
    ensures Distinct(Slots(p, b))
    ensures forall a :: a in Slots(p, b) <==> IsSlot(p, b, a)
  {
    OffsetFits(b);
    forall i, j | 0 <= i < j < TotalBlocks(b) ensures Slots(p, b)[i] != Slots(p, b)[j] {
      SlotsApart(p, b, i, j);
    }
    forall a | IsSlot(p, b, a) ensures a in Slots(p, b) {
      var k: nat :| k < TotalBlocks(b) && a == Slot(p, b, k);
      assert Slots(p, b)[k] == a;
    }
  }

  /** Nothing was stored outside page `p`. */
  ghost predicate OnlyPage(words: map<nat, nat>, other: map<nat, nat>, p: nat) {
    forall a :: a in words && PageOf(a) != p ==> a in other && other[a] == words[a]
  }

  /** A page that is not `p` and whose descriptor keeps its counts is as sound as before. */
  lemma {:induction false} OtherPage(h: Heap, g: Shape, h': Heap, g': Shape, p: nat, q: nat)
    requires PageOk(h, g, q) && q != p && OnlyPage(h.words, h'.words, p) && q in h'.pages && q in g'.chains
    requires h'.pages[q] == h.pages[q].(next := h'.pages[q].next, prev := h'.pages[q].prev) &&
      g'.chains[q] == g.chains[q]
    ensures PageOk(h', g', q)
  {
    forall a | a in g.chains[q] ensures PageOf(a) != p {
      SlotInside(q, h.pages[q].bucket, a);
    }
    ChainFrame(h.words, h'.words, h.pages[q].freeList, g.chains[q]);
  }

  /** `allocate_page_for_bucket`, given what it stored into the page. */
  function Added(h: Heap, p: nat, b: nat, words: map<nat, nat>): Heap
    requires b < BUCKETS && b < |h.free|
  {
    var d := Desc(b, 0, TotalBlocks(b), Slot(p, b, 0), 0, 0);
    h.(pages := Pushed(h.pages[p := d], h.free[b], p), words := words, free := h.free[b := p])
  }

  ghost function AddedShape(g: Shape, p: nat, b: nat): Shape
    requires b < BUCKETS && b < |g.free|
  {
    g.(free := g.free[b := [p] + g.free[b]], chains := g.chains[p := Slots(p, b)])
  }

  lemma {:induction false} AddedLinks(h: Heap, g: Shape, p: nat, b: nat, words: map<nat, nat>, c: nat)
    requires Inv(h, g) && p !in h.pages && p != 0 && b < BUCKETS && c < BUCKETS
    ensures LinksOk(Added(h, p, b, words), AddedShape(g, p, b), c)
  {
    var d := Desc(b, 0, TotalBlocks(b), Slot(p, b, 0), 0, 0);
    var pages := h.pages[p := d];
    assert LinksOk(h, g, b) && LinksOk(h, g, c) && FiledOk(h, g, b) && FiledOk(h, g, c);
    LinkedFrame(h.pages, pages, h.free[b], g.free[b]);
    LinkedFrame(h.pages, pages, h.free[c], g.free[c]);
    LinkedFrame(h.pages, pages, h.full[c], g.full[c]);
    PushKeeps(pages, g.free[b], p);
    if c != b { PushOther(pages, g.free[b], p, g.free[c]); }
    PushOther(pages, g.free[b], p, g.full[c]);
  }

  lemma {:induction false} AddedPages(h: Heap, p: nat, b: nat, words: map<nat, nat>)
    requires b < BUCKETS && b < |h.free|
    ensures var h' := Added(h, p, b, words);
      && h'.pages.Keys == h.pages.Keys + {p} && h'.pages[p].bucket == b && h'.pages[p].inUse == 0
      && h'.pages[p].total == TotalBlocks(b) && h'.pages[p].freeList == Slot(p, b, 0)
      && forall q :: q in h.pages && q != p ==>
        h'.pages[q] == h.pages[q].(next := h'.pages[q].next, prev := h'.pages[q].prev)
  {
  }

  /** A page whose blocks are all chained up joins its bucket's free list. */
  lemma {:induction false} AddedKeeps(h: Heap, g: Shape, p: nat, b: nat, words: map<nat, nat>)
    requires Inv(h, g) && p !in h.pages && p > 0 && p % PAGE_SIZE == 0 && b < BUCKETS
    requires OnlyPage(h.words, words, p) && Chain(words, Slot(p, b, 0), Slots(p, b))
    ensures Inv(Added(h, p, b, words), AddedShape(g, p, b))
  {
    var h', g' := Added(h, p, b, words), AddedShape(g, p, b);
    AddedPages(h, p, b, words);
    SlotsDistinct(p, b);
    OffsetFits(b);
    forall c: nat | c < BUCKETS ensures LinksOk(h', g', c) && FiledOk(h', g', c) {
      AddedLinks(h, g, p, b, words, c);
      assert FiledOk(h, g, c);
      Fits3(b);
    }
    forall q | q in h'.pages ensures PageOk(h', g', q) && OnList(h', g', q) {
      if q != p {
        assert PageOk(h, g, q) && OnList(h, g, q);
        OtherPage(h, g, h', g', p, q);
      }
    }
  }

  lemma {:induction false} Fits3(b: nat)
    requires b < BUCKETS
    ensures TotalBlocks(b) >= 3
  {
    OffsetFits(b);
    var x, s := PAGE_SIZE - Offset(b), BlockSize(b);
    assert x == s * (x / s) + x % s;
    if x / s < 3 { MulMono(s, x / s, 2); }
  }

  // ----- a block comes back -----

  /** Lines 101-105. */
  function Put(h: Heap, p: nat, a: nat): Heap
    requires p in h.pages && h.pages[p].inUse > 0
  {
    var d := h.pages[p];
    h.(words := h.words[a := d.freeList], pages := h.pages[p := d.(freeList := a, inUse := d.inUse - 1)])
  }

  ghost function PutShape(g: Shape, p: nat, a: nat): Shape
    requires p in g.chains
  {
    g.(chains := g.chains[p := [a] + g.chains[p]])
  }

  lemma {:induction false} PutPage(h: Heap, g: Shape, p: nat, a: nat, q: nat)
    requires PageOk(h, g, p) && PageOk(h, g, q) && h.pages[p].inUse > 0 && IsSlot(p, h.pages[p].bucket, a) &&
      a !in g.chains[p]
    ensures PageOk(Put(h, p, a), PutShape(g, p, a), q)
  {
    if q == p {
      ChainPush(h.words, g.chains[p], a);
    } else {
      SlotInside(p, h.pages[p].bucket, a);
      OtherPage(h, g, Put(h, p, a), PutShape(g, p, a), p, q);
    }
  }

  /** A block in use comes back to a page that is not full: every list stays well formed. */
  lemma {:induction false} PutKeeps(h: Heap, g: Shape, p: nat, a: nat)
    requires Inv(h, g) && InUse(h, g, a) && p == PageOf(a) && 0 < h.pages[p].inUse < h.pages[p].total
    ensures Inv(Put(h, p, a), PutShape(g, p, a))
  {
    var h', g' := Put(h, p, a), PutShape(g, p, a);
    forall c: nat | c < BUCKETS ensures LinksOk(h', g', c) && FiledOk(h', g', c) {
      assert LinksOk(h, g, c) && FiledOk(h, g, c);
      LinkedFrame(h.pages, h'.pages, h.free[c], g.free[c]);
      LinkedFrame(h.pages, h'.pages, h.full[c], g.full[c]);
    }
    forall q | q in h'.pages ensures PageOk(h', g', q) && OnList(h', g', q) {
      assert PageOk(h, g, p) && PageOk(h, g, q) && OnList(h, g, q);
      PutPage(h, g, p, a, q);
    }
  }

  // ----- an empty page goes back to the virtual memory allocator -----

  /** The words of a page are gone with its frame. */
  function Dropped(words: map<nat, nat>, p: nat): (r: map<nat, nat>)
    ensures OnlyPage(words, r, p) && forall a :: a in r ==> a in words && PageOf(a) != p
  {
    map a | a in words && PageOf(a) != p :: words[a]
  }

  /** Lines 128-137. */
  function Culled(h: Heap, p: nat, b: nat): Heap
    requires p in h.pages && b < |h.free|
  {
    var d := h.pages[p];
    h.(pages := Unlinked(h.pages, p) - {p}, words := Dropped(h.words, p),
       free := if d.prev == 0 then h.free[b := d.next] else h.free)
  }

  ghost function CulledShape(g: Shape, p: nat, b: nat, i: nat): Shape
    requires b < |g.free| && i < |g.free[b]|
  {
    g.(free := g.free[b := Drop(g.free[b], i)], chains := g.chains - {p})
  }

  lemma {:induction false} DropMembers(s: seq<nat>, i: nat, p: nat)
    requires i < |s| && Distinct(s)
    ensures p in Drop(s, i) <==> p in s && p != s[i]
  {
    if p in s && p != s[i] {
      var k :| 0 <= k < |s| && s[k] == p;
      assert Drop(s, i)[if k < i then k else k - 1] == p;
    }
  }

  lemma {:induction false} CulledList(pages: Pages, s: seq<nat>, i: nat, t: seq<nat>)
    requires Linked(pages, HeadOf(s), s) && i < |s| && s[i] in pages && Linked(pages, HeadOf(t), t)
    requires forall p :: p in t ==> p !in s
    ensures Linked(Unlinked(pages, s[i]) - {s[i]}, HeadOf(t), t)
  {
    UnlinkOther(pages, s, i, t);
    LinkedFrame(Unlinked(pages, s[i]), Unlinked(pages, s[i]) - {s[i]}, HeadOf(t), t);
  }

  lemma {:induction false} CulledOwn(pages: Pages, s: seq<nat>, i: nat)
    requires Linked(pages, HeadOf(s), s) && i < |s| && s[i] in pages
    ensures Linked(Unlinked(pages, s[i]) - {s[i]}, HeadOf(Drop(s, i)), Drop(s, i))
  {
    UnlinkKeeps(pages, s, i);
    forall p | p in Drop(s, i) ensures p != s[i] { DropMembers(s, i, p); }
    LinkedFrame(Unlinked(pages, s[i]), Unlinked(pages, s[i]) - {s[i]}, HeadOf(Drop(s, i)), Drop(s, i));
  }

  lemma {:induction false} CulledLinks(h: Heap, g: Shape, b: nat, i: nat, c: nat)
    requires Inv(h, g) && b < BUCKETS && c < BUCKETS && i < |g.free[b]| && g.free[b][i] in h.pages
    ensures LinksOk(Culled(h, g.free[b][i], b), CulledShape(g, g.free[b][i], b, i), c)
  {
    var s := g.free[b];
    assert LinksOk(h, g, b) && LinksOk(h, g, c) && FiledOk(h, g, b) && FiledOk(h, g, c);
    forall p | p in g.full[c] ensures p !in s { Disjoint(h, g, b, c, p); }
    CulledList(h.pages, s, i, g.full[c]);
    UnlinkKeeps(h.pages, s, i);
    if c == b {
      CulledOwn(h.pages, s, i);
    } else {
      forall p | p in g.free[c] ensures p !in s { Disjoint(h, g, b, c, p); }
      CulledList(h.pages, s, i, g.free[c]);
    }
  }

  /** Taking any page off its free list keeps the rest sound. */
  lemma {:induction false} CulledKeeps(h: Heap, g: Shape, b: nat, i: nat)
    requires Inv(h, g) && b < BUCKETS && i < |g.free[b]| && g.free[b][i] in h.pages
    ensures Inv(Culled(h, g.free[b][i], b), CulledShape(g, g.free[b][i], b, i))
  {
    var p := g.free[b][i];
    var h', g' := Culled(h, p, b), CulledShape(g, p, b, i);
    RelinkSame(h.pages, p);
    assert LinksOk(h, g, b) && FiledOk(h, g, b);
    forall c: nat | c < BUCKETS ensures LinksOk(h', g', c) && FiledOk(h', g', c) {
      CulledLinks(h, g, b, i, c);
      CulledFiled(h, g, b, i, c);
    }
    forall q | q in h'.pages ensures PageOk(h', g', q) && OnList(h', g', q) {
      assert PageOk(h, g, q) && OnList(h, g, q);
      OtherPage(h, g, h', g', p, q);
      DropMembers(g.free[b], i, q);
    }
  }

  lemma {:induction false} CulledFiled(h: Heap, g: Shape, b: nat, i: nat, c: nat)
    requires Inv(h, g) && b < BUCKETS && c < BUCKETS && i < |g.free[b]| && g.free[b][i] in h.pages
    ensures FiledOk(Culled(h, g.free[b][i], b), CulledShape(g, g.free[b][i], b, i), c)
  {
    var p := g.free[b][i];
    var h', g' := Culled(h, p, b), CulledShape(g, p, b, i);
    RelinkSame(h.pages, p);
    assert LinksOk(h, g, b) && FiledOk(h, g, b) && FiledOk(h, g, c);
    forall q | q in g'.free[c] ensures Belongs(h', q, c, false) {
      if c == b { DropMembers(g.free[b], i, q); } else { Disjoint(h, g, b, c, q); Disjoint(h, g, b, c, p); }
    }
    forall q | q in g'.full[c] ensures Belongs(h', q, c, true) {
      Disjoint(h, g, b, c, p);
    }
  }

  // ----- which blocks are in use -----

  /** The block handed out was not in use, and nothing else changes hands. */
  lemma {:induction false} TookLive(h: Heap, g: Shape, p: nat, x: nat)
    requires PageOk(h, g, p) && g.chains[p] != [] && h.pages[p].freeList in h.words
    ensures var a := g.chains[p][0];
      && !InUse(h, g, a) && PageOf(a) == p && IsSlot(p, h.pages[p].bucket, a)
      && (InUse(Took(h, p), TookShape(g, p), x) <==> InUse(h, g, x) || x == a)
  {
    var c := g.chains[p];
    SlotInside(p, h.pages[p].bucket, c[0]);
    assert c == [c[0]] + c[1..];
    assert c[0] !in c[1..];
  }

  lemma {:induction false} SameLive(h: Heap, g: Shape, h': Heap, g': Shape, x: nat)
    requires SameButLinks(h.pages, h'.pages) && g'.chains == g.chains
    ensures InUse(h', g', x) <==> InUse(h, g, x)
  {
  }

  lemma {:induction false} AddedLive(h: Heap, g: Shape, p: nat, b: nat, words: map<nat, nat>, x: nat)
    requires b < BUCKETS && b < |h.free| && b < |g.free| && p !in h.pages
    ensures InUse(Added(h, p, b, words), AddedShape(g, p, b), x) <==> InUse(h, g, x)
  {
    AddedPages(h, p, b, words);
    SlotsDistinct(p, b);
  }

  lemma {:induction false} PutLive(h: Heap, g: Shape, p: nat, a: nat, x: nat)
    requires PageOk(h, g, p) && h.pages[p].inUse > 0 && PageOf(a) == p && InUse(h, g, a)
    ensures InUse(Put(h, p, a), PutShape(g, p, a), x) <==> InUse(h, g, x) && x != a
  {
  }

  ghost function Elems(s: seq<nat>): set<nat> { set a | a in s }

  lemma {:induction false} DistinctCount(s: seq<nat>)
    requires Distinct(s)
    ensures |Elems(s)| == |s|
  {
    if s != [] {
      var t, last := s[..|s| - 1], s[|s| - 1];
      DistinctCount(t);
      assert s == t + [last];
      assert last !in t;
      assert Elems(s) == Elems(t) + {last};
    }
  }

  lemma {:induction false} SubsetCount(a: set<nat>, b: set<nat>)
    requires a <= b
    ensures |b - a| == |b| - |a|
  {
    assert b == a + (b - a);
  }

  /** The blocks of page `p` that are handed out. */
  ghost function LiveIn(h: Heap, g: Shape, p: nat): set<nat>
    requires p in h.pages && h.pages[p].bucket < BUCKETS
  {
    set a | a in Slots(p, h.pages[p].bucket) && InUse(h, g, a)
  }

  /** Free chain and blocks in use partition the page: `blocks_in_use` counts the blocks handed out. */
  lemma {:induction false} Partition(h: Heap, g: Shape, p: nat)
    requires PageOk(h, g, p)
    ensures LiveIn(h, g, p) !! Elems(g.chains[p]) &&
      LiveIn(h, g, p) + Elems(g.chains[p]) == Elems(Slots(p, h.pages[p].bucket))
    ensures |LiveIn(h, g, p)| == h.pages[p].inUse
  {
    var b, c := h.pages[p].bucket, g.chains[p];
    var s := Slots(p, b);
    SlotsDistinct(p, b);
    DistinctCount(s);
    DistinctCount(c);
    SubsetCount(Elems(c), Elems(s));
    forall a | a in s ensures InUse(h, g, a) <==> a !in c {
      SlotInside(p, b, a);
    }
    assert LiveIn(h, g, p) == Elems(s) - Elems(c);
  }

  /** `blocks_in_use` is the number of blocks of the page that are in use. */
  lemma {:induction false} CountedInUse(h: Heap, g: Shape, p: nat, s: set<nat>)
    requires PageOk(h, g, p) && forall x :: x in s <==> InUse(h, g, x) && PageOf(x) == p
    ensures h.pages[p].inUse == |s|
  {
    var b := h.pages[p].bucket;
    Partition(h, g, p);
    SlotsDistinct(p, b);
    var live := LiveIn(h, g, p);
    forall x | x in s ensures x in live { assert IsSlot(p, b, x); }
    forall x | x in live ensures x in s { SlotInside(p, b, x); }
    assert live == s;
  }

  /** A page with no block in use can go without taking one along. */
  lemma {:induction false} CulledLive(h: Heap, g: Shape, b: nat, i: nat, x: nat)
    requires b < |h.free| && b < |g.free| && i < |g.free[b]|
    requires PageOk(h, g, g.free[b][i]) && h.pages[g.free[b][i]].inUse == 0
    ensures InUse(Culled(h, g.free[b][i], b), CulledShape(g, g.free[b][i], b, i), x) <==> InUse(h, g, x)
  {
    var p := g.free[b][i];
    RelinkSame(h.pages, p);
    Partition(h, g, p);
    var live := LiveIn(h, g, p);
    assert live == {};
    SlotsDistinct(p, h.pages[p].bucket);
    assert PageOf(x) == p && InUse(h, g, x) ==> x in live;
  }

  // ----- a block of a full page comes back -----

  datatype Outcome = Done(heap: Heap) | Fault

  /** Lines 109-121: the page leaves its bucket's full list, and then goes to the front of the full list
  of bucket 0. Line 118 follows the bucket's own full list, which may be empty. */
  function Misfiled(h: Heap, p: nat, b: nat): Outcome
    requires p in h.pages && b < |h.free| && b < |h.full|
  {
    var d, pages := h.pages[p], Unlinked(h.pages, p);
    var full := if d.prev == 0 then h.full[b := d.next] else h.full;
    if h.free[b] != 0 && full[b] !in pages then Fault
    else
      var one := if h.free[b] != 0 then pages[full[b] := pages[full[b]].(prev := p)] else pages;
      Done(h.(pages := one[p := one[p].(prev := 0, next := full[0])], full := full[0 := p]))
  }

  /** Line 118 follows NULL exactly when the page was the only full one of its bucket and another has room. */
  ghost predicate OnlyFull(h: Heap, p: nat, b: nat)
    requires p in h.pages && b < |h.free|
  {
    h.free[b] != 0 && h.pages[p].prev == 0 && h.pages[p].next == 0
  }

  lemma {:induction false} MisfiledWhen(h: Heap, p: nat, b: nat)
    requires p in h.pages && b < |h.free| && b < |h.full| && 0 !in h.pages
    requires var d := h.pages[p]; (d.next != 0 ==> d.next in h.pages) && (d.prev != 0 ==> h.full[b] in h.pages)
    ensures Misfiled(h, p, b).Fault? <==> OnlyFull(h, p, b)
  {
    RelinkSame(h.pages, p);
    assert Unlinked(h.pages, p).Keys == h.pages.Keys;
  }

  /** A full page is on its bucket's list of full pages, which has a head. */
  lemma {:induction false} FullHead(h: Heap, g: Shape, p: nat)
    requires Inv(h, g) && p in h.pages && h.pages[p].inUse == h.pages[p].total
    ensures h.pages[p].bucket < BUCKETS && h.full[h.pages[p].bucket] in h.pages && 0 !in h.pages
  {
    assert PageOk(h, g, p) && OnList(h, g, p);
    var b := h.pages[p].bucket;
    assert LinksOk(h, g, b) && FiledOk(h, g, b);
    assert p in g.full[b];
    assert LinkedAt(h.pages, g.full[b], 0);
    forall q | q in h.pages ensures q > 0 { assert PageOk(h, g, q); }
  }

  /** The page is the only full one of its bucket, and some page of the bucket has room. */
  ghost predicate LastFull(h: Heap, p: nat) {
    && p in h.pages && Belongs(h, p, h.pages[p].bucket, true)
    && (forall q :: Belongs(h, q, h.pages[p].bucket, true) ==> q == p)
    && exists q :: Belongs(h, q, h.pages[p].bucket, false)
  }

  /** A bucket's list of pages with room is empty exactly when every page of the bucket is full. */
  lemma {:induction false} RoomWhen(h: Heap, g: Shape, b: nat)
    requires Inv(h, g) && b < BUCKETS
    ensures h.free[b] != 0 <==> exists q :: Belongs(h, q, b, false)
  {
    assert LinksOk(h, g, b) && FiledOk(h, g, b);
    if h.free[b] != 0 {
      assert LinkedAt(h.pages, g.free[b], 0);
      assert g.free[b][0] in g.free[b];
      assert Belongs(h, h.free[b], b, false);
    }
    if q :| Belongs(h, q, b, false) {
      assert OnList(h, g, q);
      assert q in g.free[b];
      assert LinkedAt(h.pages, g.free[b], 0);
    }
  }

  /** A full page has no neighbour exactly when no other page of its bucket is full. */
  lemma {:induction false} AloneWhen(h: Heap, g: Shape, p: nat)
    requires Inv(h, g) && p in h.pages && h.pages[p].inUse == h.pages[p].total
    ensures h.pages[p].prev == 0 && h.pages[p].next == 0 <==> forall q ::
      Belongs(h, q, h.pages[p].bucket, true) ==> q == p
  {
    assert PageOk(h, g, p) && OnList(h, g, p);
    var b := h.pages[p].bucket;
    assert LinksOk(h, g, b) && FiledOk(h, g, b);
    var s := g.full[b];
    assert p in s;
    var i: nat :| i < |s| && s[i] == p;
    assert LinkedAt(h.pages, s, i);
    if |s| > 1 {
      var k := if i == 0 then 1 else i - 1;
      assert LinkedAt(h.pages, s, k) && s[k] in s;
      assert Belongs(h, s[k], b, true);
    } else {
      forall q | Belongs(h, q, b, true) ensures q == p { assert OnList(h, g, q); }
    }
  }

  lemma {:induction false} LastFullWhen(h: Heap, g: Shape, p: nat)
    requires Inv(h, g) && p in h.pages && h.pages[p].inUse == h.pages[p].total && h.pages[p].bucket < BUCKETS
    ensures OnlyFull(h, p, h.pages[p].bucket) <==> LastFull(h, p)
  {
    RoomWhen(h, g, h.pages[p].bucket);
    AloneWhen(h, g, p);
  }

  /** After that no lists make the state sound: a page with a free block heads a list of full pages. */
  lemma {:induction false} MisfiledBreaks(h: Heap, p: nat, b: nat, g: Shape)
    requires p in h.pages && p != 0 && h.pages[p].inUse < h.pages[p].total && b < |h.free| && b < |h.full|
    requires Misfiled(h, p, b).Done?
    ensures !Inv(Misfiled(h, p, b).heap, g)
  {
    var h' := Misfiled(h, p, b).heap;
    RelinkSame(h.pages, p);
    if Inv(h', g) { FirstFull(h', g, 0); }
  }

  lemma {:induction false} FirstFull(h: Heap, g: Shape, b: nat)
    requires Inv(h, g) && b < BUCKETS && h.full[b] != 0
    ensures Belongs(h, h.full[b], b, true)
  {
    assert LinksOk(h, g, b) && FiledOk(h, g, b);
    assert g.full[b][0] in g.full[b];
  }

  /** A block in use is counted. */
  lemma {:induction false} InUseCounted(h: Heap, g: Shape, a: nat)
    requires Inv(h, g) && InUse(h, g, a)
    ensures PageOk(h, g, PageOf(a)) && h.pages[PageOf(a)].inUse > 0
  {
    var p := PageOf(a);
    assert PageOk(h, g, p);
    Partition(h, g, p);
    SlotsDistinct(p, h.pages[p].bucket);
    assert a in LiveIn(h, g, p);
  }

  /** No two blocks in use overlap. */
  lemma {:induction false} BlocksApart(h: Heap, g: Shape, x: nat, y: nat)
    requires Inv(h, g) && InUse(h, g, x) && InUse(h, g, y) && x < y
    ensures x + BlockSize(h.pages[PageOf(x)].bucket) <= y
  {
    var p, q := PageOf(x), PageOf(y);
    assert PageOk(h, g, p) && PageOk(h, g, q);
    SlotInside(p, h.pages[p].bucket, x);
    SlotInside(q, h.pages[q].bucket, y);
    if p == q {
      var b := h.pages[p].bucket;
      var i: nat :| i < TotalBlocks(b) && x == Slot(p, b, i);
      var j: nat :| j < TotalBlocks(b) && y == Slot(p, b, j);
      OffsetFits(b);
      if j < i { SlotsApart(p, b, j, i); } else if i < j { SlotsApart(p, b, i, j); }
    } else if q < p {
      MultipleGap(q, p, PAGE_SIZE);
    } else {
      MultipleGap(p, q, PAGE_SIZE);
    }
  }
}
