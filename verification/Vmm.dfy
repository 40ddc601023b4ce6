/** The virtual memory manager (`memory/vmm.c`): page tables written in place, in frames the physical
frame allocator supplies on the way. */
module Vmm {
  import opened Arith
  import opened PageEntry
  import opened PageTree
  import opened TablePath
  import opened Pmm
  import opened PmmRuns

  /** The page an address is in: bits 12 to 47. */
  function PageOf(addr: nat): (p: nat)
    ensures p < PAGES
  {
    addr / FRAME_SIZE % PAGES
  }

  /** `k` pages further on, as the 64-bit address arithmetic wraps. */
  function PageAt(page: nat, k: nat): nat { (page + k) % PAGES }

  function FrameAt(frame: nat, k: nat): nat { (frame + k) % FRAME_LIMIT }

  /** The shifts and masks of lines 35-37 and 70 pick the indices of the address's page. */
  lemma {:induction false} Indices(addr: nat)
    ensures addr / 0x80_0000_0000 % WORDS == IndexAt(PageOf(addr), 0)
    ensures addr / 0x4000_0000 % WORDS == IndexAt(PageOf(addr), 1)
    ensures addr / 0x20_0000 % WORDS == IndexAt(PageOf(addr), 2)
    ensures addr / 0x1000 % WORDS == IndexAt(PageOf(addr), 3)
  {
    var x := addr / FRAME_SIZE;
    DivDiv(addr, FRAME_SIZE, 0x800_0000);
    DivDiv(addr, FRAME_SIZE, 0x4_0000);
    DivDiv(addr, FRAME_SIZE, WORDS);
    ModDivMod(x, 0x800_0000, WORDS, 1);
    ModDivMod(x, 0x4_0000, WORDS, WORDS);
    ModDivMod(x, WORDS, WORDS, 0x4_0000);
    ModDivMod(x, 1, WORDS, 0x800_0000);
    var p := x % PAGES;
    DivDiv(p, WORDS, WORDS);
    DivDiv(p, WORDS * WORDS, WORDS);
  }

  lemma {:induction false} NextPage(addr: nat)
    requires addr < U64
    ensures PageOf((addr + FRAME_SIZE) % U64) == PageAt(PageOf(addr), 1)
  {
    var y := addr + FRAME_SIZE;
    ModDiv(y, FRAME_SIZE, 0x10_0000_0000_0000);
    ModMod(y / FRAME_SIZE, PAGES, 0x1_0000);
    assert y / FRAME_SIZE == addr / FRAME_SIZE + 1;
  }

  lemma {:induction false} PageAtNext(page: nat, k: nat)
    ensures PageAt(PageAt(page, k), 1) == PageAt(page, k + 1)
  {
  }

  lemma {:induction false} NextFrame(addr: nat)
    requires addr < U64
    ensures (addr + FRAME_SIZE) % U64 / FRAME_SIZE % FRAME_LIMIT == FrameAt(addr / FRAME_SIZE % FRAME_LIMIT, 1)
  {
    var y, x := addr + FRAME_SIZE, addr / FRAME_SIZE;
    ModDiv(y, FRAME_SIZE, 0x10_0000_0000_0000);
    ModMod(y / FRAME_SIZE, FRAME_LIMIT, 0x1000);
    assert y / FRAME_SIZE == x + 1;
    FrameAtMod(x);
  }

  lemma {:induction false} FrameAtMod(x: nat)
    ensures FrameAt(x % FRAME_LIMIT, 1) == (x + 1) % FRAME_LIMIT
  {
  }

  lemma {:induction false} FrameStep(addr: nat, frame: nat, k: nat)
    requires addr < U64 && addr / FRAME_SIZE % FRAME_LIMIT == FrameAt(frame, k)
    ensures (addr + FRAME_SIZE) % U64 / FRAME_SIZE % FRAME_LIMIT == FrameAt(frame, k + 1)
  {
    NextFrame(addr);
    FrameAtNext(frame, k);
  }

  lemma {:induction false} FrameAtNext(frame: nat, k: nat)
    ensures FrameAt(FrameAt(frame, k), 1) == FrameAt(frame, k + 1)
  {
  }

  lemma {:induction false} PageAtStart(addr: nat)
    ensures PageAt(PageOf(addr), 0) == PageOf(addr)
  {
  }

  /** The tables on the way to a page's last table are there when it is. */
  lemma {:induction false} AncestorsOf(v: View, page: nat)
    requires Framed(v) && page < PAGES && TableOf(page, 3) in v.tab
    ensures TableOf(page, 1) in v.tab && TableOf(page, 2) in v.tab
  {
    PathStep(page, 2);
    PathStep(page, 1);
    ParentOfChild(TableOf(page, 2), IndexAt(page, 2));
    ParentOfChild(TableOf(page, 1), IndexAt(page, 1));
  }

  /** Every table these pages need is there. */
  ghost predicate Tabled(v: View, page: nat, n: nat) {
    forall j: nat :: j < n ==> TableOf(PageAt(page, j), 3) in v.tab
  }

  /** The loops of `vmm_map` and `vmm_unmap` step through consecutive pages. */
  lemma {:induction false} PageStep(addr: nat, page: nat, k: nat)
    requires addr < U64 && PageOf(addr) == PageAt(page, k)
    ensures PageOf((addr + FRAME_SIZE) % U64) == PageAt(page, k + 1)
  {
    NextPage(addr);
    PageAtNext(page, k);
  }

  predicate Flag(flags: nat, bit: nat)
    requires bit > 0
  {
    flags / bit % 2 == 1
  }

  /** The leaf entry lines 80-88 write over an empty one. */
  function LeafEntry(frame: nat, flags: nat): Entry {
    ZERO.(present := true, writeable := Flag(flags, 0x1), user := Flag(flags, 0x2), writeThrough := Flag(flags, 0x4),
          noCache := Flag(flags, 0x8), global := Flag(flags, 0x20), nx := Flag(flags, 0x40), frame := frame)
  }

  /** The bindings after the first `n` pages of a `vmm_map` call have been written. */
  ghost function MapAfter(m: map<nat, Entry>, page: nat, frame: nat, flags: nat, n: nat): (r: map<nat, Entry>) {
    if n == 0 then m
    else MapAfter(m, page, frame, flags, n - 1)[PageAt(page, n - 1) := LeafEntry(FrameAt(frame, n - 1), flags)]
  }

  /** None of those writes hit a present page. */
  ghost predicate NoClash(m: map<nat, Entry>, page: nat, frame: nat, flags: nat, n: nat) {
    n > 0 ==> NoClash(m, page, frame, flags, n - 1) && PageAt(page, n - 1) !in MapAfter(m, page, frame, flags, n - 1)
  }

  /** `r` is `m` with `n` consecutive bindings added: every earlier binding is unchanged, and page `page + j`
  leads to frame `frame + j`. */
  ghost predicate Adds(m: map<nat, Entry>, r: map<nat, Entry>, page: nat, frame: nat, flags: nat, n: nat) {
    && r.Keys == m.Keys + PagesFrom(page, n)
    && (forall q :: q in m ==> q in r && r[q] == m[q])
    && (forall j: nat :: j < n ==> PageAt(page, j) !in m)
    && (forall j: nat :: j < n ==> PageAt(page, j) in r && r[PageAt(page, j)] == LeafEntry(FrameAt(frame, j), flags))
  }

  lemma {:induction false} AddsNext(m: map<nat, Entry>, s: map<nat, Entry>, page: nat, frame: nat, flags: nat, n: nat)
    requires Adds(m, s, page, frame, flags, n) && PageAt(page, n) !in s
    ensures Adds(m, s[PageAt(page, n) := LeafEntry(FrameAt(frame, n), flags)], page, frame, flags, n + 1)
  {
    var p := PageAt(page, n);
    PagesFromNext(page, n);
    forall j: nat | j < n ensures PageAt(page, j) != p { assert PageAt(page, j) in s; }
  }

  /** Without a clash the call has added exactly its consecutive bindings. */
  lemma {:induction false} MapAfterAdds(m: map<nat, Entry>, page: nat, frame: nat, flags: nat, n: nat)
    requires NoClash(m, page, frame, flags, n)
    ensures Adds(m, MapAfter(m, page, frame, flags, n), page, frame, flags, n)
  {
    if n > 0 {
      MapAfterAdds(m, page, frame, flags, n - 1);
      AddsNext(m, MapAfter(m, page, frame, flags, n - 1), page, frame, flags, n - 1);
    }
  }

  /** The bindings after the first `n` pages of a `vmm_unmap` call have been wiped. */
  ghost function UnmapAfter(m: map<nat, Entry>, page: nat, n: nat): (r: map<nat, Entry>) {
    if n == 0 then m else UnmapAfter(m, page, n - 1) - {PageAt(page, n - 1)}
  }

  /** The call removes exactly its consecutive pages. */
  lemma {:induction false} UnmapAfterRemoves(m: map<nat, Entry>, page: nat, n: nat)
    ensures UnmapAfter(m, page, n) == m - PagesFrom(page, n)
  {
    if n > 0 {
      UnmapAfterRemoves(m, page, n - 1);
      PagesFromNext(page, n - 1);
    }
  }

  /** Unmapping what was just mapped restores the translation. */
  lemma {:induction false} UnmapUndoesMap(m: map<nat, Entry>, page: nat, frame: nat, flags: nat, n: nat)
    requires NoClash(m, page, frame, flags, n)
    ensures UnmapAfter(MapAfter(m, page, frame, flags, n), page, n) == m
  {
    var r := MapAfter(m, page, frame, flags, n);
    MapAfterAdds(m, page, frame, flags, n);
    UnmapAfterRemoves(r, page, n);
    assert (r - PagesFrom(page, n)).Keys == m.Keys;
  }

  lemma {:induction false} PagesFromNext(page: nat, n: nat)
    ensures PagesFrom(page, n + 1) == PagesFrom(page, n) + {PageAt(page, n)}
  {
  }

  /** The address a mapping takes a virtual address to. */
  ghost function Translate(m: map<nat, Entry>, vaddr: nat): nat {
    (if PageOf(vaddr) in m then m[PageOf(vaddr)].frame else 0) * FRAME_SIZE + vaddr % FRAME_SIZE
  }

  lemma {:induction false} Translated(m: map<nat, Entry>, vaddr: nat, e: Entry)
    requires e.present <==> PageOf(vaddr) in m
    requires if e.present then m[PageOf(vaddr)] == e else e == ZERO
    ensures Translate(m, vaddr) == e.frame * FRAME_SIZE + vaddr % FRAME_SIZE
  {
  }

  /** The pages of an `vmm_unmap` call. */
  ghost function PagesFrom(page: nat, n: nat): (r: set<nat>) {
    set j: nat | j < n :: PageAt(page, j)
  }

  ghost predicate IsTable(v: View, f: nat) { exists k :: k in v.tab && v.tab[k] == f }

  /** `w` is `v` with tables added: they sit in frames that were free, and no other frame was touched. */
  ghost predicate Extends(v: View, w: View) {
    && |w.used| == |v.used| && |w.mem| == |v.mem| && w.root == v.root
    && (forall k :: k in v.tab ==> k in w.tab && w.tab[k] == v.tab[k])
    && (forall k :: k in w.tab && k !in v.tab ==> 0 <= w.tab[k] < |v.used| && !v.used[w.tab[k]])
    && (forall f :: 0 <= f < |v.used| && v.used[f] ==> w.used[f])
    && (forall f: nat :: f < |v.used| && w.used[f] && !v.used[f] ==> IsTable(w, f))
    && (forall f: nat :: f < |v.used| && f < |v.mem| && v.used[f] && w.mem[f] != v.mem[f] ==> IsTable(w, f))
  }

  lemma {:induction false} ExtendsTrans(u: View, v: View, w: View)
    requires Extends(u, v) && Extends(v, w)
    ensures Extends(u, w)
  {
    forall f: nat | f < |u.used| && w.used[f] && !u.used[f] ensures IsTable(w, f) {
      if v.used[f] {
        var k :| k in v.tab && v.tab[k] == f;
        assert w.tab[k] == f;
      }
    }
    forall f: nat | f < |u.used| && f < |u.mem| && u.used[f] && w.mem[f] != u.mem[f] ensures IsTable(w, f) {
      if v.mem[f] != u.mem[f] {
        var k :| k in v.tab && v.tab[k] == f;
        assert w.tab[k] == f;
      }
    }
  }

  /** Taking a free frame and linking it in as a table extends the tables and does nothing else. */
  lemma {:induction false} CreateExtends(v: View, k: Key, i: nat, f: nat)
    requires WellFormed(v) && f < |v.used| && !v.used[f] && k in v.tab && i < WORDS && Child(k, i) !in v.tab
    requires Framed(Grown(v, f))
    ensures Extends(v, Linked(Grown(v, f), k, i, f))
  {
    var w := Linked(Grown(v, f), k, i, f);
    assert w.tab[Child(k, i)] == f;
  }

  lemma {:induction false} ExtendsSelf(v: View)
    ensures Extends(v, v)
  {
  }

  /** A store to a leaf does not matter to it. */
  lemma {:induction false} ExtendsLeaf(u: View, v: View, page: nat, e: Entry)
    requires Extends(u, v) && Framed(v) && TableOf(page, 3) in v.tab
    ensures Extends(u, WithLeaf(v, page, e))
  {
    var w := WithLeaf(v, page, e);
    assert IsTable(w, w.tab[TableOf(page, 3)]);
    forall f: nat | f < |u.used| && w.used[f] && !u.used[f] ensures IsTable(w, f) {
      assert IsTable(v, f);
    }
    forall f: nat | f < |u.used| && f < |u.mem| && u.used[f] && w.mem[f] != u.mem[f] ensures IsTable(w, f) {
      if v.mem[f] != u.mem[f] { assert IsTable(v, f); }
    }
  }

  /** Entries that are not present are all zero. */
  ghost predicate Clean(v: View)
    requires Framed(v)
  {
    forall p: nat :: p < PAGES && !Leaf(v, p).present ==> Leaf(v, p) == ZERO
  }

  // ----- the frames that tables cost -----

  /** Frames not in use. */
  ghost function Left(v: View): int { |v.used| - CountUsed(v.used) }

  lemma {:induction false} CountBound(u: seq<bool>)
    ensures CountUsed(u) <= |u|
  {
    if u != [] { CountBound(u[1..]); }
  }

  /** `w` has the tables of `v` and `keys`: each one that was missing took a frame, and nothing else did. */
  ghost predicate Built(v: View, w: View, keys: set<Key>) {
    w.tab.Keys == v.tab.Keys + keys && |w.used| == |v.used| && Left(w) == Left(v) - Missing(v.tab, keys)
  }

  lemma {:induction false} BuiltNone(v: View, keys: set<Key>)
    requires keys <= v.tab.Keys
    ensures Built(v, v, keys) && Missing(v.tab, keys) == 0
  {
    assert keys - v.tab.Keys == {};
  }

  lemma {:induction false} BuiltOne(v: View, w: View, k: Key)
    requires k !in v.tab && w.tab.Keys == v.tab.Keys + {k} && |w.used| == |v.used| &&
      CountUsed(w.used) == CountUsed(v.used) + 1
    ensures Built(v, w, {k})
  {
    assert {k} - v.tab.Keys == {k};
  }

  lemma {:induction false} BuiltTrans(u: View, v: View, w: View, a: set<Key>, b: set<Key>)
    requires Built(u, v, a) && Built(v, w, b)
    ensures Built(u, w, a + b)
  {
    MissingMore(u.tab, v.tab, a, b);
    UnionAssoc(u.tab.Keys, a, b);
  }

  /** What came about was affordable. */
  lemma {:induction false} BuiltFits(v: View, w: View, keys: set<Key>)
    requires Built(v, w, keys)
    ensures Missing(v.tab, keys) <= Left(v)
  {
    CountBound(w.used);
  }

  /** Where the frames run out, more tables are missing than frames were left. */
  lemma {:induction false} BuiltShort(u: View, v: View, done: set<Key>, more: set<Key>, all: set<Key>)
    requires Built(u, v, done) && Missing(v.tab, more) > Left(v) && done <= all && more <= all
    ensures Missing(u.tab, all) > Left(u)
  {
    MissingMore(u.tab, v.tab, done, more);
    MissingMono(u.tab, done + more, all);
  }

  lemma {:induction false} TooMany(v: View, page: nat, i: nat, n: nat)
    requires i < n && RunsShort(v, page, i)
    ensures Missing(v.tab, TablesFrom(page, n)) > Left(v) && 3 * n > Left(v)
  {
    TablesCount(v.tab, page, n);
    TablesMono(page, i + 1, n);
    MissingMono(v.tab, TablesFrom(page, i + 1), TablesFrom(page, n));
  }

  lemma {:induction false} OneMissing(tab: map<Key, nat>, k: Key)
    ensures Missing(tab, {k}) == if k in tab then 0 else 1
  {
    assert {k} - tab.Keys == if k in tab then {} else {k};
  }

  /** The tables below the PML4 that pages `first` to `first + n` need. */
  ghost function TablesFrom(first: nat, n: nat): set<Key> {
    set j: nat, k: Key | j < n && k in PathKeys(PageAt(first, j)) :: k
  }

  lemma {:induction false} TablesNext(first: nat, n: nat)
    ensures TablesFrom(first, n + 1) == TablesFrom(first, n) + PathKeys(PageAt(first, n))
  {
  }

  lemma {:induction false} TablesOne(first: nat)
    ensures TablesFrom(first, 0) == {} && TablesFrom(first, 1) == PathKeys(PageAt(first, 0))
  {
    TablesNext(first, 0);
  }

  lemma {:induction false} TablesMono(first: nat, j: nat, n: nat)
    requires j <= n
    ensures TablesFrom(first, j) <= TablesFrom(first, n)
  {
  }

  lemma {:induction false} ThreeKeys(page: nat, k: set<Key>)
    ensures |PathKeys(page) - k| <= 3
  {
    PathKeysAre(page);
    FewerKeys(TableOf(page, 1), TableOf(page, 2), TableOf(page, 3), k);
  }

  lemma {:induction false} FewerKeys(x: Key, y: Key, z: Key, k: set<Key>)
    ensures |{x, y, z} - k| <= 3
  {
    var a := {x, y, z};
    assert |a| <= 3;
    assert |a - k| + |a * k| == |a| by { assert (a - k) + (a * k) == a; }
  }

  lemma {:induction false} MorePath(k: set<Key>, a: set<Key>, page: nat, m: nat)
    requires |a - k| <= m
    ensures |(a + PathKeys(page)) - k| <= m + 3
  {
    KeysSplit(k, a, PathKeys(page));
    ThreeKeys(page, k + a);
  }

  /** At most three a page. */
  lemma {:induction false} TablesCount(tab: map<Key, nat>, first: nat, n: nat)
    ensures Missing(tab, TablesFrom(first, n)) <= 3 * n
  {
    var i, a := 0, TablesFrom(first, 0);
    TablesOne(first);
    assert {} - tab.Keys == {};
    while i < n
      invariant i <= n && a == TablesFrom(first, i) && |a - tab.Keys| <= 3 * i
    {
      var page := PageAt(first, i);
      TablesNext(first, i);
      MorePath(tab.Keys, a, page, 3 * i);
      a, i := a + PathKeys(page), i + 1;
    }
  }

  /** Where the loop of `vmm_map` stands before page `i`. */
  ghost predicate AtPage(v: nat, p: nat, page: nat, frame: nat, i: nat) {
    v < U64 && p < U64 && PageOf(v) == PageAt(page, i) && p / FRAME_SIZE % FRAME_LIMIT == FrameAt(frame, i)
  }

  lemma {:induction false} AtFirstPage(vaddr: nat, paddr: nat)
    requires vaddr < U64 && paddr < U64
    ensures AtPage(vaddr, paddr, PageOf(vaddr), paddr / FRAME_SIZE % FRAME_LIMIT, 0)
  {
    PageAtStart(vaddr);
  }

  lemma {:induction false} AtNextPage(v: nat, p: nat, page: nat, frame: nat, i: nat)
    requires AtPage(v, p, page, frame, i)
    ensures AtPage((v + FRAME_SIZE) % U64, (p + FRAME_SIZE) % U64, page, frame, i + 1)
  {
    PageStep(v, page, i);
    FrameStep(p, frame, i);
  }

  /** `v` extends `v0` by the tables `keys`, and translates as `m`. */
  ghost predicate Staged(v0: View, v: View, m: map<nat, Entry>, keys: set<Key>) {
    Framed(v) && Extends(v0, v) && Built(v0, v, keys) && Mapping(v) == m
  }

  lemma {:induction false} StagedNext(v0: View, v: View, w: View, m: map<nat, Entry>, m': map<nat, Entry>,
      keys: set<Key>, more: set<Key>)
    requires Staged(v0, v, m, keys) && Framed(w) && Extends(v, w) && Built(v, w, more) && Mapping(w) == m'
    ensures Staged(v0, w, m', keys + more)
  {
    ExtendsTrans(v0, v, w);
    BuiltTrans(v0, v, w, keys, more);
  }

  /** And what it has done: `i` pages are bound, and the tables `keys` were made sure of. */
  ghost predicate MappedTo(v0: View, v: View, m: map<nat, Entry>, page: nat, frame: nat, flags: nat, i: nat,
      keys: set<Key>) {
    Staged(v0, v, MapAfter(m, page, frame, flags, i), keys) && NoClash(m, page, frame, flags, i)
  }

  lemma {:induction false} MapAfterNext(m: map<nat, Entry>, page: nat, frame: nat, flags: nat, i: nat)
    ensures MapAfter(m, page, frame, flags, i + 1) ==
            MapAfter(m, page, frame, flags, i)[PageAt(page, i) := LeafEntry(FrameAt(frame, i), flags)]
    ensures NoClash(m, page, frame, flags, i) && PageAt(page, i) !in MapAfter(m, page, frame, flags, i) ==>
            NoClash(m, page, frame, flags, i + 1)
  {
  }

  /** What the loop of `vmm_unmap` has done before page `i`. */
  ghost predicate UnmappedTo(v0: View, v: View, m: map<nat, Entry>, page: nat, i: nat, keys: set<Key>) {
    Staged(v0, v, UnmapAfter(m, page, i), keys)
  }

  datatype MapResult =
    | Success
    | InvalidCount    // -EINVAL
    | Exists(at: nat) // -EEXIST at this page of the call
    | NoFrame(at: nat) // no frame for a table of this page: the code would go on with frame 0

  /** What a `vmm_map` call of `n` pages came to, from `v0` to `v`: all of them bound; or those before a page
  that was bound already; or stopped for want of frames. */
  ghost predicate MapCame(v0: View, v: View, page: nat, frame: nat, flags: nat, n: nat, r: MapResult)
    requires Framed(v0)
  {
    match r
    case Success => MappedTo(v0, v, Mapping(v0), page, frame, flags, n, TablesFrom(page, n))
    case Exists(i) => i < n && Clashes(v0, v, page, frame, flags, i)
    case NoFrame(i) => i < n && NoClash(Mapping(v0), page, frame, flags, i) && RunsShort(v0, page, i)
    case InvalidCount => true
  }

  ghost predicate Clashes(v0: View, v: View, page: nat, frame: nat, flags: nat, i: nat)
    requires Framed(v0)
  {
    var m := MapAfter(Mapping(v0), page, frame, flags, i);
    NoClash(Mapping(v0), page, frame, flags, i) && PageAt(page, i) in m && Staged(v0, v, m, TablesFrom(page, i + 1))
  }

  /** More tables are missing, up to page `i` of the call, than frames are left. */
  ghost predicate RunsShort(v: View, page: nat, i: nat) { Missing(v.tab, TablesFrom(page, i + 1)) > Left(v) }

  /** It gets to the end exactly when none of its pages is bound and the tables missing on the way to them do
  not outnumber the frames left. */
  lemma {:induction false} MapGoesThrough(v0: View, v: View, page: nat, frame: nat, flags: nat, n: nat, r: MapResult)
    requires Framed(v0) && MapCame(v0, v, page, frame, flags, n, r) && !r.InvalidCount?
    ensures r.Success? <==>
            NoClash(Mapping(v0), page, frame, flags, n) && Missing(v0.tab, TablesFrom(page, n)) <= Left(v0)
  {
    match r
    case Success => BuiltFits(v0, v, TablesFrom(page, n));
    case Exists(i) => ClashStays(Mapping(v0), page, frame, flags, i, n);
    case NoFrame(i) => TooMany(v0, page, i, n);
  }

  lemma {:induction false} ClashStays(m: map<nat, Entry>, page: nat, frame: nat, flags: nat, i: nat, n: nat)
    requires i < n && PageAt(page, i) in MapAfter(m, page, frame, flags, i)
    ensures !NoClash(m, page, frame, flags, n)
  {
    if i + 1 < n { ClashStays(m, page, frame, flags, i, n - 1); }
  }

  class PageTables {
    const pmm: FrameAllocator
    const root: nat                // the frame of the PML4
    ghost var tab: map<Key, nat>   // the frame of every table

    /** `vmm_init`: the bootloader's tables are taken over as they are. */
    constructor (pmm: FrameAllocator, root: nat, ghost tab: map<Key, nat>)
      ensures this.pmm == pmm && this.root == root && this.tab == tab
    {
      this.pmm, this.root, this.tab := pmm, root, tab;
    }

    ghost function ViewOf(): View
      requires pmm.Valid()
      reads this, pmm.bitmap, pmm.ram
    {
      View(tab, pmm.Mem(), pmm.Used(), root)
    }

    ghost predicate Valid()
      reads this, pmm.bitmap, pmm.ram
    {
      pmm.Valid() && WellFormed(ViewOf()) && Clean(ViewOf())
    }

    /** `vmm_walk_and_crate_next_table`. The code does not look at whether the frame allocator had a
    frame; `ok` tells whether it did. */
    method Walk(table: nat, index: nat, ghost k: Key) returns (next: nat, ok: bool)
      requires Valid() && k in tab && tab[k] == table && k.depth < 3 && index < WORDS
      modifies this`tab, pmm`used, pmm.bitmap, pmm.ram
      ensures ok <==> Missing(old(tab), {Child(k, index)}) <= old(Left(ViewOf()))
      ensures ok ==>
        && Valid() && Child(k, index) in tab && tab[Child(k, index)] == next
        && SameLeaves(old(ViewOf()), ViewOf()) && Extends(old(ViewOf()), ViewOf())
        && Built(old(ViewOf()), ViewOf(), {Child(k, index)})
      ensures Child(k, index) in old(tab) ==> ok && ViewOf() == old(ViewOf())
    {
      ghost var v := ViewOf();
      assert EntryOk(v, k, index);
      OneMissing(tab, Child(k, index));
      CountBound(v.used);
      var e := pmm.ram[table, index];
      if !e.present {
        next, ok := Create(table, index, k);
      } else {
        ExtendsSelf(v);
        BuiltNone(v, {Child(k, index)});
        next := e.frame;
        ok := true;
      }
    }

    /** Lines 259-267. */
    method Create(table: nat, index: nat, ghost k: Key) returns (next: nat, ok: bool)
      requires Valid() && k in tab && tab[k] == table && k.depth < 3 && index < WORDS && Child(k, index) !in tab
      modifies this`tab, pmm`used, pmm.bitmap, pmm.ram
      ensures ok <==> old(Left(ViewOf())) > 0
      ensures ok ==>
        && Valid() && Child(k, index) in tab && tab[Child(k, index)] == next
        && SameLeaves(old(ViewOf()), ViewOf()) && Extends(old(ViewOf()), ViewOf())
        && Built(old(ViewOf()), ViewOf(), {Child(k, index)})
    {
      ghost var v := ViewOf();
      next, ok := NewFrame();
      if !ok { return; }
      CreateExtends(v, k, index, next);
      Link(table, index, k, next);
      BuiltOne(v, ViewOf(), Child(k, index));
    }

    /** Since `v0` the tables `done` were made sure of, and nothing else happened. */
    ghost predicate Underway(v0: View, done: set<Key>)
      reads this, pmm.bitmap, pmm.ram
    {
      Valid() && Framed(v0) && SameLeaves(v0, ViewOf()) && Extends(v0, ViewOf()) && Built(v0, ViewOf(), done)
    }

    /** One level of the descent to a table, of which `all` are wanted. */
    method Descend(ghost v0: View, table: nat, index: nat, ghost k: Key, ghost q: Key, ghost done: set<Key>,
        ghost all: set<Key>)
      returns (next: nat, ok: bool)
      requires Underway(v0, done) && k in tab && tab[k] == table && k.depth < 3 && index < WORDS
      requires q == Child(k, index) && done + {q} <= all
      modifies this`tab, pmm`used, pmm.bitmap, pmm.ram
      ensures !ok ==> Missing(v0.tab, all) > Left(v0)
      ensures ok ==> Underway(v0, done + {q}) && q in tab && tab[q] == next
      ensures q in old(tab) ==> ok && ViewOf() == old(ViewOf())
    {
      ghost var v := ViewOf();
      next, ok := Walk(table, index, k);
      if ok {
        ExtendsTrans(v0, v, ViewOf());
        BuiltTrans(v0, v, ViewOf(), done, {q});
      } else {
        BuiltShort(v0, v, done, {q}, all);
      }
    }

    /** Lines 39-40 and 68: down to the page table of an address. Every table missing on the way takes a
    frame, and the descent gets there exactly when that many are left. */
    method PathTo(vaddr: nat) returns (pt: nat, ok: bool)
      requires Valid()
      modifies this`tab, pmm`used, pmm.bitmap, pmm.ram
      ensures ok <==> Missing(old(tab), PathKeys(PageOf(vaddr))) <= old(Left(ViewOf()))
      ensures ok ==>
        && Underway(old(ViewOf()), PathKeys(PageOf(vaddr)))
        && TableOf(PageOf(vaddr), 3) in tab && tab[TableOf(PageOf(vaddr), 3)] == pt
      ensures TableOf(PageOf(vaddr), 3) in old(tab) ==> ok && ViewOf() == old(ViewOf())
    {
      ghost var page, v0 := PageOf(vaddr), ViewOf();
      Indices(vaddr);
      ghost var top, one, two, three := OnPath(page);
      if three in tab { AncestorsOf(v0, page); }
      pt, ok := DescendAll(vaddr / 0x80_0000_0000 % WORDS, vaddr / 0x4000_0000 % WORDS, vaddr / 0x20_0000 % WORDS,
                           top, one, two, three, PathKeys(page));
    }

    method DescendAll(i: nat, j: nat, l: nat, ghost top: Key, ghost one: Key, ghost two: Key, ghost three: Key,
        ghost all: set<Key>)
      returns (pt: nat, ok: bool)
      requires Valid() && i < WORDS && j < WORDS && l < WORDS && top == Key(0, 0) && one.depth == 1 && two.depth == 2
      requires one == Child(top, i) && two == Child(one, j) && three == Child(two, l) &&
        all == {} + {one} + {two} + {three}
      modifies this`tab, pmm`used, pmm.bitmap, pmm.ram
      ensures ok <==> Missing(old(tab), all) <= old(Left(ViewOf()))
      ensures ok ==> Underway(old(ViewOf()), all) && three in tab && tab[three] == pt
      ensures old(one in tab && two in tab && three in tab) ==> ok && ViewOf() == old(ViewOf())
    {
      ghost var v0 := ViewOf();
      ExtendsSelf(v0);
      BuiltNone(v0, {});
      var pdpt, pd;
      pdpt, ok := Descend(v0, root, i, top, one, {}, all);
      if !ok { return 0, false; }
      pd, ok := Descend(v0, pdpt, j, one, two, {} + {one}, all);
      if !ok { return 0, false; }
      pt, ok := Descend(v0, pd, l, two, three, {} + {one} + {two}, all);
      if ok { BuiltFits(v0, ViewOf(), all); }
    }

    /** The leaf entry of an address, in its page table. */
    function LeafAt(pt: nat, vaddr: nat): (e: Entry)
      requires Valid() && TableOf(PageOf(vaddr), 3) in tab && tab[TableOf(PageOf(vaddr), 3)] == pt
      reads this, pmm.bitmap, pmm.ram
      ensures e == Leaf(ViewOf(), PageOf(vaddr))
      ensures e.present <==> PageOf(vaddr) in Mapping(ViewOf())
      ensures if e.present then Mapping(ViewOf())[PageOf(vaddr)] == e else e == ZERO
    {
      Indices(vaddr);
      pmm.ram[pt, vaddr / 0x1000 % WORDS]
    }

    /** The store to a leaf entry. */
    method SetLeaf(pt: nat, vaddr: nat, e: Entry)
      requires Valid() && TableOf(PageOf(vaddr), 3) in tab && tab[TableOf(PageOf(vaddr), 3)] == pt
      requires e.present || e == ZERO
      modifies pmm.ram
      ensures Valid() && ViewOf() == old(WithLeaf(ViewOf(), PageOf(vaddr), e))
    {
      WithLeafKeeps(ViewOf(), PageOf(vaddr), e);
      Indices(vaddr);
      pmm.Poke(pt, vaddr / 0x1000 % WORDS, e);
    }

    /** Lines 35-88 for one page: never overwrites a present entry. */
    method MapPage(vaddr: nat, paddr: nat, flags: nat) returns (r: MapResult)
      requires Valid()
      modifies this`tab, pmm`used, pmm.bitmap, pmm.ram
      ensures !r.InvalidCount?
      ensures r.NoFrame? <==> Missing(old(tab), PathKeys(PageOf(vaddr))) > old(Left(ViewOf()))
      ensures !r.NoFrame? ==>
        && Valid() && Extends(old(ViewOf()), ViewOf()) && Built(old(ViewOf()), ViewOf(), PathKeys(PageOf(vaddr)))
      ensures r.Exists? ==> PageOf(vaddr) in old(Mapping(ViewOf())) && Mapping(ViewOf()) == old(Mapping(ViewOf()))
      ensures r.Success? ==>
        && PageOf(vaddr) !in old(Mapping(ViewOf()))
        && Mapping(ViewOf()) ==
             old(Mapping(ViewOf()))[PageOf(vaddr) := LeafEntry(paddr / FRAME_SIZE % FRAME_LIMIT, flags)]
    {
      ghost var v0 := ViewOf();
      var pt, ok := PathTo(vaddr);
      if !ok { return NoFrame(0); }
      SameLeavesMapping(v0, ViewOf());
      ExtendsLeaf(v0, ViewOf(), PageOf(vaddr), LeafEntry(paddr / FRAME_SIZE % FRAME_LIMIT, flags));
      MappingStored(ViewOf(), PageOf(vaddr), LeafEntry(paddr / FRAME_SIZE % FRAME_LIMIT, flags));
      r := FillLeaf(pt, vaddr, paddr, flags);
    }

    /** Lines 70-88. */
    method FillLeaf(pt: nat, vaddr: nat, paddr: nat, flags: nat) returns (r: MapResult)
      requires Valid() && TableOf(PageOf(vaddr), 3) in tab && tab[TableOf(PageOf(vaddr), 3)] == pt
      modifies pmm.ram
      ensures r.Exists? || r.Success?
      ensures Valid()
      ensures r.Exists? ==> PageOf(vaddr) in old(Mapping(ViewOf())) && ViewOf() == old(ViewOf())
      ensures r.Success? ==>
        && PageOf(vaddr) !in old(Mapping(ViewOf()))
        && ViewOf() == old(WithLeaf(ViewOf(), PageOf(vaddr), LeafEntry(paddr / FRAME_SIZE % FRAME_LIMIT, flags)))
    {
      var e := LeafAt(pt, vaddr);
      if e.present { return Exists(0); }
      SetLeaf(pt, vaddr, e.(present := true, writeable := Flag(flags, 0x1), user := Flag(flags, 0x2),
                            writeThrough := Flag(flags, 0x4), noCache := Flag(flags, 0x8), global := Flag(flags, 0x20),
                            nx := Flag(flags, 0x40), frame := paddr / FRAME_SIZE % FRAME_LIMIT));
      r := Success;
    }

    /** `vmm_map` for 4 KiB pages. It gets to the end exactly when no page of the call is bound and the
    tables missing on the way to its pages do not outnumber the frames left. */
    method Map(vaddr: nat, paddr: nat, pages: nat, flags: nat) returns (r: MapResult)
      requires Valid() && vaddr < U64 && paddr < U64 && !Flag(flags, 0x10)
      modifies this`tab, pmm`used, pmm.bitmap, pmm.ram
      ensures r.InvalidCount? <==> pages == 0
      ensures r.InvalidCount? ==> ViewOf() == old(ViewOf())
      ensures !r.NoFrame? ==> Valid() && Extends(old(ViewOf()), ViewOf())
      ensures MapCame(old(ViewOf()), ViewOf(), PageOf(vaddr), paddr / FRAME_SIZE % FRAME_LIMIT, flags, pages, r)
      ensures r.NoFrame? ==> old(CountUsed(ViewOf().used)) + 3 * pages > pmm.frames
    {
      if pages == 0 { return InvalidCount; }
      var v: nat, p: nat := vaddr, paddr;
      ghost var v0, page, frame := ViewOf(), PageOf(vaddr), paddr / FRAME_SIZE % FRAME_LIMIT;
      ghost var m, keys := Mapping(v0), TablesFrom(page, 0);
      ExtendsSelf(v0);
      TablesOne(page);
      BuiltNone(v0, keys);
      AtFirstPage(vaddr, paddr);
      for i := 0 to pages
        invariant AtPage(v, p, page, frame, i) && keys == TablesFrom(page, i)
        invariant Valid() && MappedTo(v0, ViewOf(), m, page, frame, flags, i, keys)
      {
        var one;
        one, v, p, keys := MapNext(v, p, flags, v0, m, page, frame, i, keys);
        if one.NoFrame? {
          TooMany(v0, page, i, pages);
          return NoFrame(i);
        }
        if one.Exists? { return Exists(i); }
      }
      r := Success;
    }

    /** One round of that loop. */
    method MapNext(v: nat, p: nat, flags: nat, ghost v0: View, ghost m: map<nat, Entry>, ghost page: nat,
        ghost frame: nat, ghost i: nat, ghost keys: set<Key>)
      returns (r: MapResult, v': nat, p': nat, ghost keys': set<Key>)
      requires Valid() && AtPage(v, p, page, frame, i) && keys == TablesFrom(page, i)
      requires MappedTo(v0, ViewOf(), m, page, frame, flags, i, keys)
      modifies this`tab, pmm`used, pmm.bitmap, pmm.ram
      ensures !r.InvalidCount? && AtPage(v', p', page, frame, i + 1) && keys' == TablesFrom(page, i + 1)
      ensures r.NoFrame? ==> RunsShort(v0, page, i)
      ensures !r.NoFrame? ==> Valid()
      ensures r.Exists? ==>
        PageAt(page, i) in MapAfter(m, page, frame, flags, i) &&
          Staged(v0, ViewOf(), MapAfter(m, page, frame, flags, i), keys')
      ensures r.Success? ==> MappedTo(v0, ViewOf(), m, page, frame, flags, i + 1, keys')
    {
      ghost var more := PathKeys(PageAt(page, i));
      TablesNext(page, i);
      keys' := keys + more;
      v', p' := Advance(v, p, page, frame, i);
      r := MapOver(v, p, flags, v0, m, page, frame, i, keys, more);
    }

    /** Lines 91-92. */
    method Advance(v: nat, p: nat, ghost page: nat, ghost frame: nat, ghost i: nat) returns (v': nat, p': nat)
      requires AtPage(v, p, page, frame, i)
      ensures AtPage(v', p', page, frame, i + 1)
    {
      AtNextPage(v, p, page, frame, i);
      v', p' := (v + 0x1000) % U64, (p + 0x1000) % U64;
    }

    method MapOver(v: nat, p: nat, flags: nat, ghost v0: View, ghost m: map<nat, Entry>, ghost page: nat,
        ghost frame: nat, ghost i: nat, ghost keys: set<Key>, ghost more: set<Key>)
      returns (r: MapResult)
      requires Valid() && AtPage(v, p, page, frame, i) && more == PathKeys(PageAt(page, i))
      requires MappedTo(v0, ViewOf(), m, page, frame, flags, i, keys)
      modifies this`tab, pmm`used, pmm.bitmap, pmm.ram
      ensures !r.InvalidCount?
      ensures r.NoFrame? ==> Missing(v0.tab, keys + more) > Left(v0)
      ensures !r.NoFrame? ==> Valid()
      ensures r.Exists? ==>
        PageAt(page, i) in MapAfter(m, page, frame, flags, i) &&
          Staged(v0, ViewOf(), MapAfter(m, page, frame, flags, i), keys + more)
      ensures r.Success? ==> MappedTo(v0, ViewOf(), m, page, frame, flags, i + 1, keys + more)
    {
      ghost var v1, m' := ViewOf(), MapAfter(m, page, frame, flags, i);
      r := MapPage(v, p, flags);
      if r.NoFrame? {
        BuiltShort(v0, v1, keys, more, keys + more);
      } else {
        StagedNext(v0, v1, ViewOf(), m', Mapping(ViewOf()), keys, more);
        if r.Success? { MapAfterNext(m, page, frame, flags, i); }
      }
    }

    /** Lines 107-129 for one page. */
    method UnmapPage(vaddr: nat) returns (ok: bool)
      requires Valid()
      modifies this`tab, pmm`used, pmm.bitmap, pmm.ram
      ensures ok ==>
        && Valid() && Extends(old(ViewOf()), ViewOf()) && Built(old(ViewOf()), ViewOf(), PathKeys(PageOf(vaddr)))
        && Mapping(ViewOf()) == old(Mapping(ViewOf())) - {PageOf(vaddr)}
      ensures ok <==> Missing(old(tab), PathKeys(PageOf(vaddr))) <= old(Left(ViewOf()))
      ensures TableOf(PageOf(vaddr), 3) in old(tab) ==> ok && tab == old(tab) && pmm.Used() == old(pmm.Used())
    {
      ghost var v0 := ViewOf();
      var pt;
      pt, ok := PathTo(vaddr);
      if !ok { return; }
      ghost var v := ViewOf();
      SameLeavesMapping(v0, v);
      MappingStored(v, PageOf(vaddr), ZERO);
      ExtendsLeaf(v0, v, PageOf(vaddr), ZERO);
      SetLeaf(pt, vaddr, ZERO);
    }

    /** `vmm_unmap`: exactly the pages of the call lose their translation. */
    method Unmap(vaddr: nat, pages: nat) returns (r: MapResult)
      requires Valid() && vaddr < U64
      modifies this`tab, pmm`used, pmm.bitmap, pmm.ram
      ensures !r.Exists? && (r.InvalidCount? <==> pages == 0)
      ensures r.InvalidCount? ==> ViewOf() == old(ViewOf())
      ensures r.Success? <==> pages > 0 && Missing(old(tab), TablesFrom(PageOf(vaddr), pages)) <= old(Left(ViewOf()))
      ensures r.Success? ==>
        && Valid() && Extends(old(ViewOf()), ViewOf())
        && Built(old(ViewOf()), ViewOf(), TablesFrom(PageOf(vaddr), pages))
        && Mapping(ViewOf()) == UnmapAfter(old(Mapping(ViewOf())), PageOf(vaddr), pages)
      ensures r.NoFrame? ==> old(CountUsed(ViewOf().used)) + 3 * pages > pmm.frames
      ensures old(Tabled(ViewOf(), PageOf(vaddr), pages)) ==>
        !r.NoFrame? && tab == old(tab) && pmm.Used() == old(pmm.Used())
    {
      if pages == 0 { return InvalidCount; }
      var v: nat := vaddr;
      ghost var v0, page := ViewOf(), PageOf(vaddr);
      ghost var m, tabled, keys := Mapping(v0), Tabled(v0, page, pages), TablesFrom(page, 0);
      ExtendsSelf(v0);
      TablesOne(page);
      BuiltNone(v0, keys);
      PageAtStart(vaddr);
      for i := 0 to pages
        invariant v < U64 && PageOf(v) == PageAt(page, i) && keys == TablesFrom(page, i)
        invariant Valid() && UnmappedTo(v0, ViewOf(), m, page, i, keys)
        invariant tabled ==> tab == v0.tab && pmm.Used() == v0.used
      {
        var ok;
        ok, v, keys := UnmapNext(v, v0, m, page, i, keys);
        if !ok {
          TooMany(v0, page, i, pages);
          return NoFrame(i);
        }
      }
      BuiltFits(v0, ViewOf(), keys);
      r := Success;
    }

    /** One round of that loop. */
    method UnmapNext(v: nat, ghost v0: View, ghost m: map<nat, Entry>, ghost page: nat, ghost i: nat,
        ghost keys: set<Key>)
      returns (ok: bool, v': nat, ghost keys': set<Key>)
      requires Valid() && v < U64 && PageOf(v) == PageAt(page, i) && keys == TablesFrom(page, i) &&
        UnmappedTo(v0, ViewOf(), m, page, i, keys)
      modifies this`tab, pmm`used, pmm.bitmap, pmm.ram
      ensures v' < U64 && PageOf(v') == PageAt(page, i + 1) && keys' == TablesFrom(page, i + 1)
      ensures !ok ==> RunsShort(v0, page, i)
      ensures ok ==> Valid() && UnmappedTo(v0, ViewOf(), m, page, i + 1, keys')
      ensures TableOf(PageAt(page, i), 3) in old(tab) ==> ok && tab == old(tab) && pmm.Used() == old(pmm.Used())
    {
      ghost var v1, more := ViewOf(), PathKeys(PageAt(page, i));
      TablesNext(page, i);
      keys' := keys + more;
      PageStep(v, page, i);
      v' := (v + 0x1000) % U64;
      ok := UnmapPage(v);
      if ok {
        ExtendsTrans(v0, v1, ViewOf());
        BuiltTrans(v0, v1, ViewOf(), keys, more);
      } else {
        BuiltShort(v0, v1, keys, more, keys');
      }
    }

    /** `vmm_get_physical_from_virtual`: the bound frame and the offset, frame 0 where nothing is bound.
    The lookup may create tables, yet leaves every translation as it was. */
    method GetPhysical(vaddr: nat) returns (addr: nat, ok: bool)
      requires Valid()
      modifies this`tab, pmm`used, pmm.bitmap, pmm.ram
      ensures ok ==>
        && Valid() && Extends(old(ViewOf()), ViewOf()) && Mapping(ViewOf()) == old(Mapping(ViewOf()))
        && Built(old(ViewOf()), ViewOf(), PathKeys(PageOf(vaddr))) && addr == Translate(old(Mapping(ViewOf())), vaddr)
      ensures ok <==> Missing(old(tab), PathKeys(PageOf(vaddr))) <= old(Left(ViewOf()))
      ensures TableOf(PageOf(vaddr), 3) in old(tab) ==> ok && ViewOf() == old(ViewOf())
    {
      ghost var v0 := ViewOf();
      var pt;
      pt, ok := PathTo(vaddr);
      if !ok { return 0, false; }
      SameLeavesMapping(v0, ViewOf());
      var e := LeafAt(pt, vaddr);
      addr := e.frame * FRAME_SIZE + vaddr % FRAME_SIZE;
      Translated(Mapping(v0), vaddr, e);
    }

    /** Line 260: a zeroed frame, which changes no table. */
    method NewFrame() returns (f: nat, ok: bool)
      requires Valid()
      modifies pmm`used, pmm.bitmap, pmm.ram
      ensures ok ==>
        && Valid() && 0 < f < pmm.frames && !old(pmm.Used())[f] && ViewOf() == old(Grown(ViewOf(), f))
        && SameLeaves(old(ViewOf()), ViewOf())
        && (forall q :: q in tab ==> tab[q] != f)
        && CountUsed(ViewOf().used) == old(CountUsed(ViewOf().used)) + 1
      ensures ok <==> old(Left(ViewOf())) > 0
    {
      ghost var fit, u := pmm.Fit(1, FRAME_SIZE), pmm.Used();
      FirstFitIsLowest(u, 0, 1, StepOf(FRAME_SIZE));
      var addr := pmm.AllocateFrames(1, FRAME_SIZE);
      f := addr / FRAME_SIZE;
      ok := addr != 0;
      if fit.Some? {
        GrownKeeps(old(ViewOf()), f);
        CountStore(u, f, true);
        assert pmm.Used() == u[f := true];
        assert pmm.Mem() == old(pmm.Mem())[f := ZeroFrame()];
        CountBound(pmm.Used());
      } else {
        NoneFree(u);
      }
    }

    /** Lines 263-266: the entry of a missing table is pointed at a zeroed frame. */
    method Link(table: nat, index: nat, ghost k: Key, next: nat)
      requires Valid() && k in tab && tab[k] == table && k.depth < 3 && index < WORDS && Child(k, index) !in tab
      requires 0 < next < pmm.frames && pmm.Used()[next] && pmm.Mem()[next] == ZeroFrame() && forall q ::
        q in tab ==> tab[q] != next
      modifies this`tab, pmm.ram
      ensures Valid() && ViewOf() == old(Linked(ViewOf(), k, index, next)) && SameLeaves(old(ViewOf()), ViewOf())
    {
      LinkedKeeps(ViewOf(), k, index, next);
      pmm.Poke(table, index, TableEntry(pmm.ram[table, index], next));
      tab := tab[Child(k, index) := next];
    }
  }

  /** When the scan for one frame fails, every frame is in use. */
  lemma {:induction false} NoneFree(u: seq<bool>)
    requires FirstFit(u, 0, 1, 1) == None
    ensures CountUsed(u) == |u|
  {
    FirstFitIsLowest(u, 0, 1, 1);
    forall i | 0 <= i < |u| ensures u[i] { assert !RunFree(u, i, 1); }
    AllUsed(u);
  }

  lemma {:induction false} AllUsed(u: seq<bool>)
    requires forall i :: 0 <= i < |u| ==> u[i]
    ensures CountUsed(u) == |u|
  {
    if u != [] { AllUsed(u[1..]); }
  }
}
