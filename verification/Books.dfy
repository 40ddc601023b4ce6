/** The ledger the page tables, the frame bitmap and the heap tree amount to, and what `memory/vmm.c`
calls do to it. */
module Books {
  import opened Arith
  import opened PageEntry
  import opened PageTree
  import opened Regions
  import opened Ownership
  import V = Vmm

  ghost function TableFrames(v: View): set<nat> { set k | k in v.tab :: v.tab[k] }

  /** The frames behind the mapped pages of the window from `lo` to `hi`. */
  ghost function HeapPages(m: map<nat, Entry>, lo: nat, hi: nat): map<nat, nat> {
    map p | p in m && lo <= AddrOf(p) < hi :: m[p].frame
  }

  ghost function BooksOf(v: View, regions: seq<Region>, lo: nat, hi: nat): Ledger
    requires Framed(v)
  {
    Ledger(v.used, TableFrames(v), HeapPages(Mapping(v), lo, hi), regions)
  }

  // ----- page numbers and addresses of the kernel half -----

  lemma {:induction false} PageOfAddr(p: nat)
    requires p < PAGES
    ensures AddrOf(p) < U64 && V.PageOf(AddrOf(p)) == p
  {
    assert AddrOf(p) / 4096 == 0xF_FFF0_0000_0000 + p;
  }

  lemma {:induction false} AddrOfPage(a: nat)
    requires HIGH <= a < U64
    ensures AddrOf(V.PageOf(a)) <= a < AddrOf(V.PageOf(a)) + PAGE_SIZE
  {
    var d := a - HIGH;
    assert a / 4096 == 0xF_FFF0_0000_0000 + d / 4096;
    assert d / 4096 < PAGES;
  }

  // ----- a demand fault -----

  lemma {:induction false} TablesGrow(v0: View, f: nat, w: View)
    requires WellFormed(v0) && 0 < f < |v0.used| && !v0.used[f] && WellFormed(w) && V.Extends(Grown(v0, f), w)
    ensures TableFrames(v0) <= TableFrames(w) && f !in TableFrames(w)
    ensures forall t :: t in TableFrames(w) && t !in TableFrames(v0) ==> t < |v0.used| && !v0.used[t]
  {
    forall t | t in TableFrames(v0) ensures t in TableFrames(w) {
      var k :| k in v0.tab && v0.tab[k] == t;
      assert w.tab[k] == t;
    }
    forall t | t in TableFrames(w) && t !in TableFrames(v0) ensures t < |v0.used| && !v0.used[t] {
      var k :| k in w.tab && w.tab[k] == t;
    }
  }

  lemma {:induction false} UsedGrows(v0: View, f: nat, w: View, g: nat)
    requires WellFormed(v0) && 0 < f < |v0.used| && !v0.used[f] && WellFormed(w) && V.Extends(Grown(v0, f), w)
    requires g < |v0.used|
    ensures w.used[g] <==> v0.used[g] || g == f || g in TableFrames(w)
  {
    var v := Grown(v0, f);
    if w.used[g] && !v.used[g] {
      var k :| k in w.tab && w.tab[k] == g;
    }
    if g in TableFrames(w) {
      var k :| k in w.tab && w.tab[k] == g;
    }
  }

  /** A fresh frame bound to an untouched page is a step of the ledger. */
  lemma {:induction false} TouchBooks(v0: View, f: nat, w: View, p: nat, e: Entry, regions: seq<Region>, lo: nat,
      hi: nat)
    requires WellFormed(v0) && 0 < f < |v0.used| && !v0.used[f] && WellFormed(w) && V.Extends(Grown(v0, f), w)
    requires p !in Mapping(v0) && Mapping(w) == Mapping(v0)[p := e] && e.frame == f
    requires Backed(regions, p) && lo <= AddrOf(p) < hi
    ensures Touches(BooksOf(v0, regions, lo, hi), p, f, BooksOf(w, regions, lo, hi))
  {
    TablesGrow(v0, f, w);
    forall g: nat | g < |v0.used| ensures w.used[g] <==> v0.used[g] || g == f || g in TableFrames(w) {
      UsedGrows(v0, f, w, g);
    }
    PagesAdd(Mapping(v0), p, e, lo, hi);
  }

  lemma {:induction false} PagesAdd(m: map<nat, Entry>, p: nat, e: Entry, lo: nat, hi: nat)
    requires lo <= AddrOf(p) < hi
    ensures HeapPages(m[p := e], lo, hi) == HeapPages(m, lo, hi)[p := e.frame]
  {
  }

  // ----- the backing of a region goes -----

  /** The tables do not notice that frames behind heap pages are given back. */
  lemma {:induction false} FreedFramed(v: View, used: seq<bool>)
    requires WellFormed(v) && |used| == |v.used| && used[0] && forall t :: t in TableFrames(v) ==> used[t]
    ensures WellFormed(v.(used := used)) && SameLeaves(v, v.(used := used))
  {
    var w := v.(used := used);
    forall k | k in v.tab ensures used[v.tab[k]] { assert v.tab[k] in TableFrames(v); }
    assert Framed(w);
    forall k, i: nat | k in w.tab && k.depth < 3 && i < WORDS ensures EntryOk(w, k, i) {
      assert EntryOk(v, k, i);
    }
  }

  /** Unmapping a region's pages takes exactly them off the ledger. */
  lemma {:induction false} PagesRemove(m: map<nat, Entry>, r: Region, first: nat, n: nat, lo: nat, hi: nat)
    requires Spans(r, first, n) && first + n <= PAGES
    ensures HeapPages(m - V.PagesFrom(first, n), lo, hi) ==
            (map p | p in HeapPages(m, lo, hi) && !Covers(r, AddrOf(p)) :: HeapPages(m, lo, hi)[p])
  {
    forall p: nat ensures p in V.PagesFrom(first, n) <==> Covers(r, AddrOf(p)) {
      PagesSpan(first, n, p);
    }
  }

  lemma {:induction false} PagesSpan(first: nat, n: nat, p: nat)
    requires first + n <= PAGES
    ensures p in V.PagesFrom(first, n) <==> first <= p < first + n
  {
    if first <= p < first + n { assert V.PageAt(first, p - first) == p; }
  }
}
