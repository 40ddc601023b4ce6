/** Who owns which physical frame, over every run of heap allocations, demand faults and frees. */
module Ownership {
  import opened Regions
  import opened PmmRuns

  const PAGE_SIZE: nat := 4096
  const HIGH: nat := 0xFFFF_0000_0000_0000  // where the kernel half of the address space starts

  /** The address of a page of the kernel half. */
  function AddrOf(page: nat): nat { HIGH + page * PAGE_SIZE }

  /** The frames in use, those that hold page tables, the frame behind every mapped heap page, and the
  regions of the heap window. */
  datatype Ledger = Ledger(used: seq<bool>, tables: set<nat>, pages: map<nat, nat>, regions: seq<Region>)

  /** The page lies in an allocated region of ordinary memory. */
  ghost predicate Backed(regions: seq<Region>, p: nat) {
    exists r :: r in regions && r.kind == Regular && Covers(r, AddrOf(p))
  }

  ghost predicate HeapFrame(s: Ledger, f: nat) {
    exists p :: p in s.pages && s.pages[p] == f
  }

  predicate WholePages(r: Region) { r.start % PAGE_SIZE == 0 && r.size % PAGE_SIZE == 0 }

  ghost predicate Aligned(regions: seq<Region>) {
    forall i :: 0 <= i < |regions| ==> WholePages(regions[i])
  }

  ghost predicate Laid(regions: seq<Region>, lo: nat, hi: nat) {
    Tiles(regions, lo, hi) && HIGH <= lo && hi < WORD && Coalesced(regions) && Aligned(regions)
  }

  /** Every frame in use has exactly one owner: it was reserved from the start, it is a page table, or
  it is behind exactly one heap page; and heap pages only exist in allocated regions. */
  ghost predicate Inv(s: Ledger, reserved: set<nat>) {
    && (forall f: nat :: f < |s.used| ==> (s.used[f] <==> f in reserved || f in s.tables || HeapFrame(s, f)))
    && s.tables !! reserved
    && (forall p :: p in s.pages ==> s.pages[p] < |s.used| && s.pages[p] !in s.tables && s.pages[p] !in reserved)
    && (forall p, q :: p in s.pages && q in s.pages && s.pages[p] == s.pages[q] ==> p == q)
    && (forall p :: p in s.pages ==> Backed(s.regions, p))
  }

  datatype Op =
    | Allocate(at: int, size: nat, flags: nat)  // a free region, or the start of one, is taken
    | Touch(page: nat, frame: nat)              // the first access to a page
    | Free(at: int)

  ghost predicate Allocates(s: Ledger, j: int, size: nat, flags: nat, s': Ledger) {
    && FreeAt(s.regions, j) && 0 < size <= s.regions[j].size && size % PAGE_SIZE == 0
    && s' == s.(regions := if size == s.regions[j].size then s.regions[j := Taken(s.regions[j], size, Regular, flags)]
                           else Carve(s.regions, j, size, Regular, flags))
  }

  /** The page gets a frame that was free; the tables it needed on the way took free frames too. */
  ghost predicate Touches(s: Ledger, p: nat, f: nat, s': Ledger) {
    && Backed(s.regions, p) && p !in s.pages && f < |s.used| && !s.used[f]
    && |s'.used| == |s.used| && s'.regions == s.regions && s'.pages == s.pages[p := f]
    && s.tables <= s'.tables && f !in s'.tables
    && (forall t :: t in s'.tables && t !in s.tables ==> t < |s.used| && !s.used[t])
    && (forall g: nat :: g < |s.used| ==> (s'.used[g] <==> s.used[g] || g == f || g in s'.tables))
  }

  ghost predicate Touched(s: Ledger, r: Region) {
    forall p: nat :: Covers(r, AddrOf(p)) ==> p in s.pages
  }

  /** A fully touched region goes: its frames, its translations and its place in the window. */
  ghost predicate Frees(s: Ledger, j: int, s': Ledger) {
    && 0 <= j < |s.regions| && s.regions[j].kind == Regular && Touched(s, s.regions[j])
    && |s'.used| == |s.used| && s'.tables == s.tables && s'.regions == Release(s.regions, j)
    && s'.pages == (map p | p in s.pages && !Covers(s.regions[j], AddrOf(p)) :: s.pages[p])
    && (forall g: nat :: g < |s.used| ==> (s'.used[g] <==> s.used[g] && !Gives(s, s.regions[j], g)))
  }

  ghost predicate Gives(s: Ledger, r: Region, f: nat) {
    exists p :: p in s.pages && Covers(r, AddrOf(p)) && s.pages[p] == f
  }

  ghost predicate Next(s: Ledger, op: Op, s': Ledger) {
    match op
    case Allocate(j, size, flags) => Allocates(s, j, size, flags, s')
    case Touch(p, f) => Touches(s, p, f, s')
    case Free(j) => Frees(s, j, s')
  }

  // ----- what each step keeps -----

  /** A region that is allocated stays where it is when another one changes. */
  lemma {:induction false} CarveMember(s: seq<Region>, j: int, size: nat, flags: nat, r: Region)
    requires 0 <= j < |s| && r in s && r != s[j]
    ensures r in Carve(s, j, size, Regular, flags) && r in s[j := Taken(s[j], size, Regular, flags)]
  {
    var i :| 0 <= i < |s| && s[i] == r;
    assert s[j := Taken(s[j], size, Regular, flags)][i] == r;
    assert Carve(s, j, size, Regular, flags)[if i < j then i else i + 1] == r;
  }

  lemma {:induction false} SpliceMember(s: seq<Region>, a: int, b: int, x: Region, i: int)
    requires 0 <= a <= b <= |s| && (0 <= i < a || b <= i < |s|)
    ensures s[i] in s[..a] + [x] + s[b..]
  {
    var t := s[..a] + [x] + s[b..];
    if i < a { assert t[i] == s[i]; } else { assert t[i - b + a + 1] == s[i]; }
  }

  lemma {:induction false} ReleaseMember(s: seq<Region>, j: int, r: Region)
    requires 0 <= j < |s| && r in s && r != s[j] && !r.kind.Free?
    ensures r in Release(s, j)
  {
    var i :| 0 <= i < |s| && s[i] == r;
    if FreeAt(s, j + 1) && FreeAt(s, j - 1) {
      SpliceMember(s, j - 1, j + 2, s[j - 1].(size := Wrap(s[j + 1].size + s[j - 1].size + s[j].size)), i);
    } else if FreeAt(s, j - 1) {
      SpliceMember(s, j - 1, j + 1, s[j - 1].(size := Wrap(s[j - 1].size + s[j].size)), i);
    } else if FreeAt(s, j + 1) {
      SpliceMember(s, j, j + 2, s[j].(size := Wrap(s[j + 1].size + s[j].size), kind := Regions.Free), i);
    } else {
      assert Release(s, j)[i] == r;
    }
  }

  lemma {:induction false} CarveAligned(s: seq<Region>, j: int, size: nat, flags: nat)
    requires Aligned(s) && 0 <= j < |s| && 0 < size <= s[j].size < WORD && size % PAGE_SIZE == 0
    ensures Aligned(Carve(s, j, size, Regular, flags))
  {
    var r := Carve(s, j, size, Regular, flags);
    assert WholePages(s[j]);
    assert WholePages(Taken(s[j], size, Regular, flags)) && WholePages(Leftover(s[j], size));
    forall i | 0 <= i < |r| ensures WholePages(r[i]) {
      if i < j { assert r[i] == s[i]; } else if i > j + 1 { assert r[i] == s[i - 1]; }
    }
  }

  lemma {:induction false} ReleaseAligned(s: seq<Region>, j: int)
    requires Aligned(s) && 0 <= j < |s| && Merged(s, j).size < WORD
    ensures Aligned(Release(s, j))
  {
    var a, b := RunFrom(s, j), RunTo(s, j);
    MergedAligned(s, j);
    ReleaseMerges(s, j);
    var r := s[..a] + [Merged(s, j)] + s[b..];
    forall i | 0 <= i < |r| ensures WholePages(r[i]) {
      if i < a { assert r[i] == s[i]; } else if i > a { assert r[i] == s[i + b - a - 1]; }
    }
  }

  lemma {:induction false} MergedAligned(s: seq<Region>, j: int)
    requires Aligned(s) && 0 <= j < |s|
    ensures WholePages(Merged(s, j))
  {
    assert WholePages(s[j]);
    if FreeAt(s, j - 1) { assert WholePages(s[j - 1]); }
    if FreeAt(s, j + 1) { assert WholePages(s[j + 1]); }
    var before := if FreeAt(s, j - 1) then s[j - 1].size else 0;
    var after := if FreeAt(s, j + 1) then s[j + 1].size else 0;
    SumOfPages(after, before, s[j].size);
  }

  lemma {:induction false} SumOfPages(a: nat, b: nat, c: nat)
    requires a % PAGE_SIZE == 0 && b % PAGE_SIZE == 0 && c % PAGE_SIZE == 0
    ensures (a + b + c) % PAGE_SIZE == 0
  {
  }

  lemma {:induction false} AllocateLaid(s: seq<Region>, j: int, size: nat, flags: nat, lo: nat, hi: nat)
    requires Laid(s, lo, hi) && FreeAt(s, j) && 0 < size <= s[j].size && size % PAGE_SIZE == 0
    ensures Laid(if size == s[j].size then s[j := Taken(s[j], size, Regular, flags)]
                 else Carve(s, j, size, Regular, flags), lo, hi)
  {
    TilesUpTo(s, lo, hi, j);
    if size == s[j].size {
      ExactFitKeeps(s, j, Regular, flags, lo, hi);
    } else {
      CarveTiles(s, j, size, Regular, flags, lo, hi);
      CarveCoalesced(s, j, size, Regular, flags);
      CarveAligned(s, j, size, flags);
    }
  }

  lemma {:induction false} FreeLaid(s: seq<Region>, j: int, lo: nat, hi: nat)
    requires Laid(s, lo, hi) && 0 <= j < |s| && !s[j].kind.Free?
    ensures Laid(Release(s, j), lo, hi)
  {
    ReleaseKeeps(s, j, lo, hi);
    MergedSpan(s, j, lo, hi);
    TilesUpTo(s, lo, hi, RunTo(s, j) - 1);
    ReleaseAligned(s, j);
  }

  lemma {:induction false} AllocateKeeps(s: Ledger, j: int, size: nat, flags: nat, s': Ledger, reserved: set<nat>)
    requires Inv(s, reserved) && Allocates(s, j, size, flags, s')
    ensures Inv(s', reserved)
  {
    forall p | p in s'.pages ensures Backed(s'.regions, p) {
      var r :| r in s.regions && r.kind == Regular && Covers(r, AddrOf(p));
      CarveMember(s.regions, j, size, flags, r);
    }
    forall f: nat | f < |s.used| ensures HeapFrame(s', f) <==> HeapFrame(s, f) {
    }
  }

  lemma {:induction false} TouchKeeps(s: Ledger, p: nat, f: nat, s': Ledger, reserved: set<nat>)
    requires Inv(s, reserved) && Touches(s, p, f, s')
    ensures Inv(s', reserved)
  {
    forall g: nat | g < |s.used| ensures HeapFrame(s', g) <==> HeapFrame(s, g) || g == f {
      if HeapFrame(s, g) {
        var q :| q in s.pages && s.pages[q] == g;
        assert s'.pages[q] == g;
      }
      assert s'.pages[p] == f;
    }
    forall q | q in s.pages ensures s.used[s.pages[q]] {
      assert HeapFrame(s, s.pages[q]);
    }
    forall q, r | q in s'.pages && r in s'.pages && s'.pages[q] == s'.pages[r] ensures q == r {
    }
  }

  lemma {:induction false} FreeKeeps(s: Ledger, j: int, s': Ledger, reserved: set<nat>)
    requires Inv(s, reserved) && Frees(s, j, s')
    ensures Inv(s', reserved)
  {
    var r := s.regions[j];
    forall p | p in s'.pages ensures Backed(s'.regions, p) {
      var q :| q in s.regions && q.kind == Regular && Covers(q, AddrOf(p));
      ReleaseMember(s.regions, j, q);
    }
    forall g: nat | g < |s.used| ensures HeapFrame(s', g) <==> HeapFrame(s, g) && !Gives(s, r, g) {
      if HeapFrame(s, g) && !Gives(s, r, g) {
        var q :| q in s.pages && s.pages[q] == g;
        assert s'.pages[q] == g;
      }
    }
  }

  ghost predicate IsRun(states: seq<Ledger>, ops: seq<Op>) {
    |states| == |ops| + 1 && forall i :: 0 <= i < |ops| ==> Next(states[i], ops[i], states[i + 1])
  }

  /** Over every run, frames in use keep exactly one owner each and the heap window stays tiled. */
  lemma {:induction false} RunKeeps(states: seq<Ledger>, ops: seq<Op>, reserved: set<nat>, lo: nat, hi: nat, n: nat)
    requires IsRun(states, ops) && n < |states|
    requires Inv(states[0], reserved) && Laid(states[0].regions, lo, hi)
    ensures Inv(states[n], reserved) && Laid(states[n].regions, lo, hi)
  {
    if n > 0 {
      RunKeeps(states, ops, reserved, lo, hi, n - 1);
      var s, s' := states[n - 1], states[n];
      assert Next(s, ops[n - 1], s');
      match ops[n - 1]
      case Allocate(j, size, flags) =>
        AllocateKeeps(s, j, size, flags, s', reserved);
        AllocateLaid(s.regions, j, size, flags, lo, hi);
      case Touch(p, f) =>
        TouchKeeps(s, p, f, s', reserved);
      case Free(j) =>
        FreeKeeps(s, j, s', reserved);
        FreeLaid(s.regions, j, lo, hi);
    }
  }

  /** A page outside every allocated region is not mapped: what is allocated next starts untouched. */
  lemma {:induction false} FreeIsUntouched(s: Ledger, reserved: set<nat>, lo: nat, hi: nat, j: int, p: nat)
    requires Inv(s, reserved) && Laid(s.regions, lo, hi) && FreeAt(s.regions, j) && Covers(s.regions[j], AddrOf(p))
    ensures p !in s.pages
  {
    if p in s.pages {
      var r :| r in s.regions && r.kind == Regular && Covers(r, AddrOf(p));
      var i :| 0 <= i < |s.regions| && s.regions[i] == r;
      CoverUnique(s.regions, lo, hi, i, j, AddrOf(p));
    }
  }

  // ----- the frames a free gives back -----

  function FirstPage(r: Region): nat
    requires r.start >= HIGH
  {
    (r.start - HIGH) / PAGE_SIZE
  }

  function PageCount(r: Region): nat { r.size / PAGE_SIZE }

  lemma {:induction false} PagesOfRegion(r: Region, p: nat)
    requires WholePages(r) && r.start >= HIGH
    ensures Covers(r, AddrOf(p)) <==> FirstPage(r) <= p < FirstPage(r) + PageCount(r)
    ensures AddrOf(FirstPage(r)) == r.start
  {
  }

  /** The first `n` pages are all mapped. */
  ghost predicate Behind(pages: map<nat, nat>, first: nat, n: nat, size: nat) {
    forall p: nat :: first <= p < first + n ==> p in pages && pages[p] < size
  }

  /** The frames in use once those of the first `n` pages have been given back. */
  ghost function FreedUpTo(used: seq<bool>, pages: map<nat, nat>, first: nat, n: nat): (r: seq<bool>)
    requires Behind(pages, first, n, |used|)
    ensures |r| == |used|
  {
    if n == 0 then used else FreedUpTo(used, pages, first, n - 1)[pages[first + n - 1] := false]
  }

  lemma {:induction false} FreedAt(used: seq<bool>, pages: map<nat, nat>, first: nat, n: nat, g: nat)
    requires Behind(pages, first, n, |used|) && g < |used|
    ensures FreedUpTo(used, pages, first, n)[g] <==>
            used[g] && !exists p: nat :: first <= p < first + n && pages[p] == g
  {
    if n > 0 {
      FreedAt(used, pages, first, n - 1, g);
      var last := first + n - 1;
      assert pages[last] < |used|;
    }
  }

  /** As many frames come back as there were pages, when no two pages share one. */
  lemma {:induction false} FreedCount(used: seq<bool>, pages: map<nat, nat>, first: nat, n: nat)
    requires Behind(pages, first, n, |used|)
    requires forall p: nat :: first <= p < first + n ==> used[pages[p]]
    requires forall p: nat, q: nat :: first <= p < q < first + n ==> pages[p] != pages[q]
    ensures CountUsed(FreedUpTo(used, pages, first, n)) == CountUsed(used) - n
  {
    if n > 0 {
      var last := first + n - 1;
      FreedCount(used, pages, first, n - 1);
      FreedAt(used, pages, first, n - 1, pages[last]);
      CountStore(FreedUpTo(used, pages, first, n - 1), pages[last], false);
    }
  }

  ghost predicate Spans(r: Region, first: nat, n: nat) {
    forall p: nat :: Covers(r, AddrOf(p)) <==> first <= p < first + n
  }

  /** Clearing page by page clears exactly the frames behind the region. */
  lemma {:induction false} FreedGives(s: Ledger, r: Region, first: nat, n: nat, g: nat)
    requires Spans(r, first, n) && Behind(s.pages, first, n, |s.used|) && g < |s.used|
    ensures FreedUpTo(s.used, s.pages, first, n)[g] <==> s.used[g] && !Gives(s, r, g)
  {
    FreedAt(s.used, s.pages, first, n, g);
    if Gives(s, r, g) {
      var p :| p in s.pages && Covers(r, AddrOf(p)) && s.pages[p] == g;
      assert first <= p < first + n;
    }
  }

  lemma {:induction false} RegionSpans(s: seq<Region>, lo: nat, hi: nat, j: int)
    requires Laid(s, lo, hi) && 0 <= j < |s|
    ensures s[j].start >= HIGH && Spans(s[j], FirstPage(s[j]), PageCount(s[j]))
  {
    TilesFrom(s, lo, hi, j);
    forall p: nat ensures Covers(s[j], AddrOf(p)) <==> FirstPage(s[j]) <= p < FirstPage(s[j]) + PageCount(s[j]) {
      PagesOfRegion(s[j], p);
    }
  }

  /** Freeing a region returns exactly one frame per page of it. */
  lemma {:induction false} FreeReturns(s: Ledger, j: int, s': Ledger, reserved: set<nat>, lo: nat, hi: nat)
    requires Inv(s, reserved) && Laid(s.regions, lo, hi) && Frees(s, j, s')
    ensures CountUsed(s'.used) == CountUsed(s.used) - PageCount(s.regions[j])
  {
    var r := s.regions[j];
    RegionSpans(s.regions, lo, hi, j);
    FreedFrames(s, r, FirstPage(r), PageCount(r), s'.used, reserved);
  }

  lemma {:induction false} FreedFrames(s: Ledger, r: Region, first: nat, n: nat, u: seq<bool>, reserved: set<nat>)
    requires Inv(s, reserved) && Spans(r, first, n) && Touched(s, r) && |u| == |s.used|
    requires forall g: nat :: g < |u| ==> (u[g] <==> s.used[g] && !Gives(s, r, g))
    ensures CountUsed(u) == CountUsed(s.used) - n
  {
    forall p: nat | first <= p < first + n ensures p in s.pages && s.used[s.pages[p]] {
      assert Covers(r, AddrOf(p));
      assert HeapFrame(s, s.pages[p]);
    }
    FreedCount(s.used, s.pages, first, n);
    forall g: nat | g < |u| ensures u[g] == FreedUpTo(s.used, s.pages, first, n)[g] {
      FreedGives(s, r, first, n, g);
    }
    assert u == FreedUpTo(s.used, s.pages, first, n);
  }
}
