/** What the processor makes of the page tables: the walk from the PML4 and the rights it finds on the way
(Intel SDM volume 3A, sections 4.5 and 4.6). */
module PageWalk {
  import opened Arith
  import opened PageEntry
  import opened PageTree
  import V = Vmm
  import B = BootTables

  /** Where an access to a page goes and what it may do there. */
  datatype Access = Fault | Access(frame: nat, write: bool, user: bool, execute: bool)

  /** The walk from one table on. Each level can only take rights away; a huge entry ends the walk early. */
  ghost function WalkFrom(m: Memory, table: nat, page: nat, depth: nat): Access
    requires depth <= 3
    decreases 3 - depth
  {
    if table >= |m| || |m[table]| != WORDS || !m[table][IndexAt(page, depth)].present then Fault
    else
      var e := m[table][IndexAt(page, depth)];
      if depth == 3 then Access(e.frame, e.writeable, e.user, !e.nx)
      else if e.huge then Access(e.frame + page % Span(depth), e.writeable, e.user, !e.nx)
      else match WalkFrom(m, e.frame, page, depth + 1)
        case Fault => Fault
        case Access(f, w, u, x) => Access(f, w && e.writeable, u && e.user, x && !e.nx)
  }

  /** The pages under one entry. */
  function Span(depth: nat): (n: nat)
    ensures n > 0
  {
    if depth == 2 then WORDS else if depth == 1 then WORDS * WORDS else WORDS * WORDS * WORDS
  }

  ghost function Sees(v: View, page: nat): Access { WalkFrom(v.mem, v.root, page, 0) }

  /** What a translation promises. */
  ghost function Granted(m: map<nat, Entry>, page: nat): Access {
    if page in m then Access(m[page].frame, m[page].writeable, m[page].user, !m[page].nx) else Fault
  }

  /** The tables above a table that is there are there. */
  lemma {:induction false} TablesAbove(v: View, page: nat, depth: nat)
    requires Framed(v) && page < PAGES && depth < 3 && TableOf(page, depth + 1) in v.tab
    ensures TableOf(page, depth) in v.tab
  {
    PathStep(page, depth);
    ParentOfChild(TableOf(page, depth), IndexAt(page, depth));
  }

  lemma {:induction false} NoneBelow(v: View, page: nat, depth: nat)
    requires Framed(v) && page < PAGES && depth <= 3 && TableOf(page, depth) !in v.tab
    ensures TableOf(page, 3) !in v.tab
    decreases 3 - depth
  {
    if depth < 3 {
      if TableOf(page, depth + 1) in v.tab { TablesAbove(v, page, depth); }
      NoneBelow(v, page, depth + 1);
    }
  }

  lemma {:induction false} WalkDown(v: View, page: nat, depth: nat)
    requires WellFormed(v) && page < PAGES && depth <= 3 && TableOf(page, depth) in v.tab
    ensures WalkFrom(v.mem, v.tab[TableOf(page, depth)], page, depth) == Granted(Mapping(v), page)
    decreases 3 - depth
  {
    if depth < 3 {
      assert EntryOk(v, TableOf(page, depth), IndexAt(page, depth));
      PathStep(page, depth);
      if TableOf(page, depth + 1) in v.tab {
        WalkDown(v, page, depth + 1);
      } else {
        NoneBelow(v, page, depth + 1);
      }
    }
  }

  /** The processor sees exactly the translation, frames and rights: no table on the way takes a right away. */
  lemma {:induction false} WalkSees(v: View, page: nat)
    requires WellFormed(v) && page < PAGES
    ensures Sees(v, page) == Granted(Mapping(v), page)
  {
    WalkDown(v, page, 0);
  }

  /** The rights `flags` ask for (vmm.h: bit 0 to write, bit 1 for user mode, bit 6 against execution). */
  function Asked(frame: nat, flags: nat): Access {
    Access(frame, flags % 2 == 1, flags / 2 % 2 == 1, flags / 0x40 % 2 == 0)
  }

  lemma {:induction false} LeafGrants(e: Entry, frame: nat, flags: nat, m: map<nat, Entry>, page: nat)
    requires page in m && m[page] == B.LeafOver(e, frame, flags) && frame < FRAME_LIMIT
    ensures Granted(m, page) == Asked(frame, flags)
  {
  }

  lemma {:induction false} LeafOverEmpty(frame: nat, flags: nat)
    requires frame < FRAME_LIMIT
    ensures V.LeafEntry(frame, flags) == B.LeafOver(ZERO, frame, flags)
  {
  }

  lemma {:induction false} AddsGrants(m: map<nat, Entry>, r: map<nat, Entry>, page: nat, frame: nat, flags: nat, n: nat,
      q: nat)
    requires V.Adds(m, r, page, frame, flags, n)
    ensures forall k: nat :: k < n && q == V.PageAt(page, k) ==> Granted(r, q) == Asked(V.FrameAt(frame, k), flags)
    ensures (forall k: nat :: k < n ==> q != V.PageAt(page, k)) ==> Granted(r, q) == Granted(m, q)
  {
    forall k: nat | k < n && q == V.PageAt(page, k) ensures Granted(r, q) == Asked(V.FrameAt(frame, k), flags) {
      LeafOverEmpty(V.FrameAt(frame, k), flags);
      LeafGrants(ZERO, V.FrameAt(frame, k), flags, r, q);
    }
  }

  /** After a `vmm_map` that got to its end an access to each of its pages goes to its frame with exactly the
  rights asked for, and one to any other page goes where it went. */
  lemma {:induction false} MapGrants(v0: View, v: View, page: nat, frame: nat, flags: nat, n: nat, q: nat)
    requires WellFormed(v0) && WellFormed(v) && V.MapCame(v0, v, page, frame, flags, n, V.Success) && q < PAGES
    ensures forall k: nat :: k < n && q == V.PageAt(page, k) ==> Sees(v, q) == Asked(V.FrameAt(frame, k), flags)
    ensures (forall k: nat :: k < n ==> q != V.PageAt(page, k)) ==> Sees(v, q) == Sees(v0, q)
  {
    WalkSees(v0, q);
    WalkSees(v, q);
    V.MapAfterAdds(Mapping(v0), page, frame, flags, n);
    AddsGrants(Mapping(v0), Mapping(v), page, frame, flags, n, q);
  }

  lemma {:induction false} PageWithin(vaddr: nat, x: nat, k: nat)
    requires vaddr % 0x1000 == 0 && k == x / 0x1000
    ensures V.PageOf(vaddr + x) == V.PageAt(V.PageOf(vaddr), k) && (vaddr + x) % 0x1000 == x % 0x1000
  {
    var a := vaddr / 0x1000;
    assert (vaddr + x) / 0x1000 == a + k;
    SumMod(a, k);
  }

  lemma {:induction false} SumMod(a: nat, k: nat)
    ensures (a + k) % PAGES == (a % PAGES + k) % PAGES
  {
    var q := a / PAGES;
    assert a == PAGES * q + a % PAGES;
    var b := a % PAGES + k;
    DivModUnique(a + k, PAGES, q + b / PAGES, b % PAGES);
  }

  lemma {:induction false} FrameWithin(paddr: nat, x: nat, k: nat, n: nat)
    requires paddr % 0x1000 == 0 && k == x / 0x1000 && x < n * 0x1000 && paddr + n * 0x1000 <= 0x10_0000_0000_0000
    ensures k < n && V.FrameAt(paddr / 0x1000 % FRAME_LIMIT, k) == (paddr + x) / 0x1000
    ensures (paddr + x) / 0x1000 * 0x1000 + x % 0x1000 == paddr + x
  {
    var f := paddr / 0x1000;
    assert paddr == f * 0x1000 && x == k * 0x1000 + x % 0x1000;
    assert f < FRAME_LIMIT && f + k < FRAME_LIMIT;
    DivModUnique(paddr + x, 0x1000, f + k, x % 0x1000);
  }

  lemma {:induction false} MapGrantsAt(v0: View, v: View, page: nat, frame: nat, flags: nat, n: nat, k: nat)
    requires WellFormed(v0) && WellFormed(v) && V.MapCame(v0, v, page, frame, flags, n, V.Success) && k < n
    ensures Sees(v, V.PageAt(page, k)) == Asked(V.FrameAt(frame, k), flags)
  {
    MapGrants(v0, v, page, frame, flags, n, V.PageAt(page, k));
  }

  /** Byte for byte: the virtual memory mapped is the physical memory asked for, in order. */
  lemma {:induction false} MapReaches(v0: View, v: View, vaddr: nat, paddr: nat, flags: nat, n: nat, x: nat)
    requires WellFormed(v0) && WellFormed(v) && vaddr % 0x1000 == 0 && paddr % 0x1000 == 0
    requires x < n * 0x1000 && paddr + n * 0x1000 <= 0x10_0000_0000_0000
    requires V.MapCame(v0, v, V.PageOf(vaddr), paddr / 0x1000 % FRAME_LIMIT, flags, n, V.Success)
    ensures var a := Sees(v, V.PageOf(vaddr + x));
      && a == Asked((paddr + x) / 0x1000, flags) && a.frame * 0x1000 + (vaddr + x) % 0x1000 == paddr + x
  {
    var k := x / 0x1000;
    FrameWithin(paddr, x, k, n);
    PageWithin(vaddr, x, k);
    MapGrantsAt(v0, v, V.PageOf(vaddr), paddr / 0x1000 % FRAME_LIMIT, flags, n, k);
  }

  /** And after `vmm_unmap` an access to any of its pages faults. */
  lemma {:induction false} UnmapFaults(v0: View, v: View, vaddr: nat, n: nat, x: nat)
    requires WellFormed(v0) && WellFormed(v) && vaddr % 0x1000 == 0 && x < n * 0x1000
    requires Mapping(v) == V.UnmapAfter(Mapping(v0), V.PageOf(vaddr), n)
    ensures Sees(v, V.PageOf(vaddr + x)) == Fault
  {
    var k := x / 0x1000;
    PageWithin(vaddr, x, k);
    WalkSees(v, V.PageOf(vaddr + x));
    V.UnmapAfterRemoves(Mapping(v0), V.PageOf(vaddr), n);
  }

  /** One page bound and no other changed, as a page fault does it. */
  lemma {:induction false} TouchGrants(v0: View, v: View, page: nat, frame: nat, flags: nat, q: nat)
    requires WellFormed(v0) && WellFormed(v) && frame < FRAME_LIMIT && q < PAGES
    requires Mapping(v) == Mapping(v0)[page := V.LeafEntry(frame, flags)]
    ensures Sees(v, q) == if q == page then Asked(frame, flags) else Sees(v0, q)
  {
    WalkSees(v0, q);
    WalkSees(v, q);
    LeafOverEmpty(frame, flags);
    StoreGrants(Mapping(v0), Mapping(v), page, ZERO, frame, flags, q);
  }

  lemma {:induction false} StoreGrants(m: map<nat, Entry>, r: map<nat, Entry>, page: nat, e: Entry, frame: nat,
      flags: nat, q: nat)
    requires r == m[page := B.LeafOver(e, frame, flags)] && frame < FRAME_LIMIT
    ensures Granted(r, q) == if q == page then Asked(frame, flags) else Granted(m, q)
  {
    LeafGrants(e, frame, flags, r, page);
  }

  lemma {:induction false} BoundGrants(v: View, w: View, page: nat, frame: nat, flags: nat, q: nat)
    requires WellFormed(v) && WellFormed(w) && frame < FRAME_LIMIT && page < PAGES && q < PAGES
    requires Mapping(w) == Mapping(v)[page := B.LeafOver(Leaf(v, page), frame, flags)]
    ensures Sees(w, q) == if q == page then Asked(frame, flags) else Sees(v, q)
  {
    WalkSees(v, q);
    WalkSees(w, q);
    StoreGrants(Mapping(v), Mapping(w), page, Leaf(v, page), frame, flags, q);
  }

  /** The same for the boot loader's `map_vaddr_to_paddr`, whose page may be bound already. */
  lemma {:induction false} BootGrants(m: B.Machine, w: B.Machine, page: nat, frame: nat, flags: nat, q: nat)
    requires B.Mapped(m, w, page, frame, flags) && frame < FRAME_LIMIT && page < PAGES && q < PAGES
    ensures Sees(w.v, q) == if q == page then Asked(frame, flags) else Sees(m.v, q)
  {
    BoundGrants(m.v, w.v, page, frame, flags, q);
  }

  /** Where `vmm_get_physical_from_virtual` says an address is, the processor goes; where the processor faults, it
  says frame 0. */
  lemma {:induction false} TranslateAgrees(v: View, addr: nat)
    requires WellFormed(v)
    ensures V.Translate(Mapping(v), addr) ==
      (match Sees(v, V.PageOf(addr)) case Access(f, _, _, _) => f case Fault => 0) * 0x1000 + addr % 0x1000
  {
    WalkSees(v, V.PageOf(addr));
  }
}
