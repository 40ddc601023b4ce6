/** The regions an address space is cut into, and the callback and comparators of
`memory/vma.c` over the AVL tree that holds them. */
module Regions {
  import opened AvlTree
  import opened AvlInsert
  import opened AvlNodes
  import opened AvlWalks

  const WORD: int := 0x1_0000_0000_0000_0000  // uint64_t wraps here
  const HALF_INT: int := 0x8000_0000          // int reaches up to here

  datatype Kind = Free | Regular | FileBacked | HardwareMmio | Unmanaged

  /** The fields of `vm_ds_node` that describe a region. */
  datatype Region = Region(start: nat, size: nat, kind: Kind, flags: nat)

  type VmNode = Node<Region, nat>
  type VmLink = Node?<Region, nat>
  type VmItem = Item<Region, nat>
  type VmTree = Shape<Region, nat>

  function FreeSize(r: Region): nat {
    if r.kind.Free? then r.size else 0
  }

  function Or0(o: Option<nat>): nat {
    if o.Some? then o.value else 0
  }

  function NatMax(a: nat, b: nat): nat { if a > b then a else b }

  /** `vm_avl_update`: the largest free size below, through the children's caches. */
  function VmUpdate(e: VmItem, l: Option<nat>, r: Option<nat>): nat {
    NatMax(NatMax(Or0(l), Or0(r)), FreeSize(e.data))
  }

  /** What is left of a 64-bit difference after the conversion to `int` (vma.c:366). */
  function ToInt(d: int): (r: int)
    ensures -HALF_INT <= r < HALF_INT && (r - d) % 0x1_0000_0000 == 0
  {
    (d + HALF_INT) % 0x1_0000_0000 - HALF_INT
  }

  /** `vm_avl_comp_addr`. */
  function CompAddr(a: VmItem, b: VmItem): int {
    ToInt(a.data.start - b.data.start)
  }

  /** `vm_avl_comp_addr` with its key fixed. */
  function ProbeAddr(addr: nat): Probe<VmItem, nat> {
    (e: VmItem, a: nat, l: Option<nat>, r: Option<nat>) => ToInt(e.data.start - addr)
  }

  /** `vm_avl_comp_addr_space` with its key fixed. */
  function ProbeCover(addr: nat): Probe<VmItem, nat> {
    (e: VmItem, a: nat, l: Option<nat>, r: Option<nat>) =>
      if e.data.start <= addr && (e.data.start + e.data.size) % WORD > addr then 0
      else if e.data.start > addr then 1
      else -1
  }

  /** `vm_avl_comp_max_free_slot`. */
  function ProbeWorst(e: VmItem, a: nat, l: Option<nat>, r: Option<nat>): int {
    if e.data.size == a && e.data.kind.Free? then 0
    else if l.Some? && l.value == a then 1
    else -1
  }

  ghost predicate OrderedRight(a: int, b: int) {
    (ToInt(a - b) > 0 <==> a > b) && (ToInt(a - b) == 0 <==> a == b)
  }

  /** The comparator orders every pair of addresses of a window correctly exactly when the window
  spans at most 2^31 bytes. The kernel's heap and MMIO windows span 2^34. */
  lemma CompAddrOrders(base: nat, span: nat)
    ensures (forall a, b :: base <= a < base + span && base <= b < base + span ==> OrderedRight(a, b))
            <==> span <= HALF_INT
  {
    if span > HALF_INT {
      var a, b := base + HALF_INT, base;
      assert ToInt(a - b) == -HALF_INT;
      assert !OrderedRight(a, b);
    }
  }

  // ----- the cache -----

  function MaxFree(s: seq<VmItem>): nat {
    if s == [] then 0 else NatMax(FreeSize(s[0].data), MaxFree(s[1..]))
  }

  lemma {:induction false} MaxFreeConcat(a: seq<VmItem>, b: seq<VmItem>)
    ensures MaxFree(a + b) == NatMax(MaxFree(a), MaxFree(b))
  {
    if a == [] {
      assert a + b == b;
    } else {
      assert (a + b)[1..] == a[1..] + b;
      MaxFreeConcat(a[1..], b);
    }
  }

  /** An exact cache holds, at every node, the largest free size in its subtree. */
  lemma {:induction false} CacheIsMaxFree(t: VmTree)
    requires AugExact(t, VmUpdate)
    ensures Or0(AugOf(t)) == MaxFree(InOrder(t))
  {
    if t.Branch? {
      CacheIsMaxFree(t.left);
      CacheIsMaxFree(t.right);
      MaxFreeConcat(InOrder(t.left) + [t.entry], InOrder(t.right));
      MaxFreeConcat(InOrder(t.left), [t.entry]);
    }
  }

  lemma {:induction false} MaxFreeBounds(s: seq<VmItem>)
    ensures forall i :: 0 <= i < |s| ==> FreeSize(s[i].data) <= MaxFree(s)
    ensures MaxFree(s) > 0 ==> exists i :: 0 <= i < |s| && FreeSize(s[i].data) == MaxFree(s)
  {
    if s != [] {
      MaxFreeBounds(s[1..]);
      forall i | 0 <= i < |s| ensures FreeSize(s[i].data) <= MaxFree(s) {
        if i > 0 { assert s[i] == s[1..][i - 1]; }
      }
      if MaxFree(s) > 0 && FreeSize(s[0].data) != MaxFree(s) {
        var i :| 0 <= i < |s[1..]| && FreeSize(s[1..][i].data) == MaxFree(s[1..]);
        assert s[i + 1] == s[1..][i];
      }
    }
  }

  // ----- tree search refines a linear scan -----

  ghost predicate PositiveSizes(s: seq<VmItem>) {
    forall i :: 0 <= i < |s| ==> s[i].data.size > 0
  }

  /** The worst-fit search: with an exact cache it finds a free region of the greatest size, and
  NULL only if nothing is free. */
  lemma {:induction false} WorstFitFinds(t: VmTree)
    requires AugExact(t, VmUpdate) && PositiveSizes(InOrder(t))
    ensures var r := Search(t, ProbeWorst);
      && (r.Leaf? <==> forall i :: 0 <= i < |InOrder(t)| ==> !InOrder(t)[i].data.kind.Free?)
      && (r.Branch? ==> r.entry.data.kind.Free? && r.entry.data.size == MaxFree(InOrder(t)) && r.entry in InOrder(t))
  {
    AllPositiveSizes(t);
    WorstFitSearch(t);
    CacheIsMaxFree(t);
    SearchMember(t, ProbeWorst);
    MaxFreeBounds(InOrder(t));
  }

  ghost predicate AllPositive(t: VmTree) {
    t.Branch? ==> t.entry.data.size > 0 && AllPositive(t.left) && AllPositive(t.right)
  }

  lemma {:induction false} AllPositiveSizes(t: VmTree)
    requires PositiveSizes(InOrder(t))
    ensures AllPositive(t)
  {
    if t.Branch? {
      var s, l := InOrder(t), |InOrder(t.left)|;
      assert s[l] == t.entry;
      assert forall i :: 0 <= i < l ==> InOrder(t.left)[i] == s[i];
      assert forall i :: 0 <= i < |InOrder(t.right)| ==> InOrder(t.right)[i] == s[l + 1 + i];
      AllPositiveSizes(t.left);
      AllPositiveSizes(t.right);
    }
  }

  /** The search follows the caches down to a region whose free size is the root's cache. */
  lemma {:induction false} WorstFitSearch(t: VmTree)
    requires AugExact(t, VmUpdate) && AllPositive(t)
    ensures var r := Search(t, ProbeWorst);
      && (r.Leaf? <==> Or0(AugOf(t)) == 0)
      && (r.Branch? ==> r.entry.data.kind.Free? && r.entry.data.size == Or0(AugOf(t)))
  {
    if t.Branch? {
      WorstFitSearch(t.left);
      WorstFitSearch(t.right);
    }
  }

  /** The nodes above their subtrees, the left subtree before the right. */
  ghost function PreOrder(t: VmTree): seq<VmItem> {
    if t.Leaf? then [] else [t.entry] + PreOrder(t.left) + PreOrder(t.right)
  }

  lemma {:induction false} PreOrderBound(t: VmTree)
    requires AugExact(t, VmUpdate)
    ensures forall k :: 0 <= k < |PreOrder(t)| ==> FreeSize(PreOrder(t)[k].data) <= Or0(AugOf(t))
  {
    if t.Branch? {
      PreOrderBound(t.left);
      PreOrderBound(t.right);
    }
  }

  /** Of several free regions of the greatest size the search finds the first in that order. */
  lemma {:induction false} WorstFitFirst(t: VmTree) returns (i: int)
    requires AugExact(t, VmUpdate) && PositiveSizes(InOrder(t)) && Search(t, ProbeWorst).Branch?
    ensures 0 <= i < |PreOrder(t)| && PreOrder(t)[i] == Search(t, ProbeWorst).entry
    ensures FreeSize(PreOrder(t)[i].data) == MaxFree(InOrder(t))
    ensures AllLess(PreOrder(t), i, MaxFree(InOrder(t)))
  {
    WorstFitFinds(t);
    CacheIsMaxFree(t);
    i := FirstFound(t);
  }

  /** The first `n` are free for less than `m` bytes. */
  ghost predicate AllLess(s: seq<VmItem>, n: int, m: nat) {
    n <= |s| && forall k :: 0 <= k < n ==> FreeSize(s[k].data) < m
  }

  lemma {:induction false} FirstOnLeft(x: VmItem, l: seq<VmItem>, r: seq<VmItem>, k: int, m: nat)
    requires FreeSize(x.data) < m && 0 <= k < |l| && AllLess(l, k, m)
    ensures ([x] + l + r)[1 + k] == l[k] && AllLess([x] + l + r, 1 + k, m)
  {
  }

  lemma {:induction false} FirstOnRight(x: VmItem, l: seq<VmItem>, r: seq<VmItem>, k: int, m: nat)
    requires FreeSize(x.data) < m && AllLess(l, |l|, m) && 0 <= k < |r| && AllLess(r, k, m)
    ensures ([x] + l + r)[1 + |l| + k] == r[k] && AllLess([x] + l + r, 1 + |l| + k, m)
  {
  }

  /** Which way the search goes. */
  lemma {:induction false} WorstStep(t: VmTree)
    requires t.Branch? && AugExact(t, VmUpdate) && t.aug > 0
    ensures var (l, r) := (Or0(AugOf(t.left)), Or0(AugOf(t.right)));
      if FreeSize(t.entry.data) == t.aug then Search(t, ProbeWorst) == t
      else
        && FreeSize(t.entry.data) < t.aug
        && if l == t.aug then Search(t, ProbeWorst) == Search(t.left, ProbeWorst)
           else Search(t, ProbeWorst) == Search(t.right, ProbeWorst) && l < t.aug && r == t.aug
  {
  }

  lemma {:induction false} FirstFound(t: VmTree) returns (i: int)
    requires AugExact(t, VmUpdate) && Search(t, ProbeWorst).Branch? && Or0(AugOf(t)) > 0
    ensures 0 <= i < |PreOrder(t)| && PreOrder(t)[i] == Search(t, ProbeWorst).entry
    ensures AllLess(PreOrder(t), i, Or0(AugOf(t)))
  {
    WorstStep(t);
    if FreeSize(t.entry.data) == t.aug {
      i := 0;
    } else if Or0(AugOf(t.left)) == t.aug {
      var k := FirstFound(t.left);
      FirstOnLeft(t.entry, PreOrder(t.left), PreOrder(t.right), k, t.aug);
      i := 1 + k;
    } else {
      PreOrderBound(t.left);
      var k := FirstFound(t.right);
      FirstOnRight(t.entry, PreOrder(t.left), PreOrder(t.right), k, t.aug);
      i := 1 + |PreOrder(t.left)| + k;
    }
  }

  // ----- tiling -----

  function Data(s: seq<VmItem>): (r: seq<Region>)
    ensures |r| == |s| && forall i :: 0 <= i < |s| ==> r[i] == s[i].data
  {
    seq(|s|, i requires 0 <= i < |s| => s[i].data)
  }

  function End(r: Region): nat { r.start + r.size }

  /** In address order the regions cover the window from `lo` to `hi` with no gap and no overlap. */
  ghost predicate Tiles(s: seq<Region>, lo: nat, hi: nat) {
    && |s| > 0 && s[0].start == lo && End(s[|s| - 1]) == hi
    && (forall i :: 0 <= i < |s| ==> s[i].size > 0)
    && (forall i :: 0 <= i < |s| - 1 ==> End(s[i]) == s[i + 1].start)
  }

  ghost predicate Coalesced(s: seq<Region>) {
    forall i :: 0 <= i < |s| - 1 ==> !(s[i].kind.Free? && s[i + 1].kind.Free?)
  }

  lemma {:induction false} TilesOrdered(s: seq<Region>, lo: nat, hi: nat, i: int, j: int)
    requires Tiles(s, lo, hi) && 0 <= i <= j < |s|
    ensures lo <= s[i].start && s[i].start <= s[j].start && End(s[j]) <= hi
    ensures i < j ==> End(s[i]) <= s[j].start
    decreases |s| - i + j
  {
    if i < j {
      TilesOrdered(s, lo, hi, i, j - 1);
      TilesOrdered(s, lo, hi, j, j);
    } else if i > 0 {
      TilesFrom(s, lo, hi, i);
      TilesUpTo(s, lo, hi, i);
    } else {
      TilesUpTo(s, lo, hi, i);
    }
  }

  lemma {:induction false} TilesFrom(s: seq<Region>, lo: nat, hi: nat, i: int)
    requires Tiles(s, lo, hi) && 0 <= i < |s|
    ensures lo <= s[i].start
  {
    if i > 0 { TilesFrom(s, lo, hi, i - 1); }
  }

  lemma {:induction false} TilesUpTo(s: seq<Region>, lo: nat, hi: nat, i: int)
    requires Tiles(s, lo, hi) && 0 <= i < |s|
    ensures End(s[i]) <= hi
    decreases |s| - i
  {
    if i < |s| - 1 { TilesUpTo(s, lo, hi, i + 1); }
  }

  ghost predicate TilesOrEmpty(s: seq<Region>, lo: nat, hi: nat) {
    if s == [] then lo == hi else Tiles(s, lo, hi)
  }

  lemma {:induction false} TilesPrefix(l: seq<Region>, x: Region, r: seq<Region>, lo: nat, hi: nat)
    requires Tiles(l + [x] + r, lo, hi)
    ensures TilesOrEmpty(l, lo, x.start) && x.size > 0
  {
    var s, n := l + [x] + r, |l|;
    assert s[n] == x;
    assert forall i :: 0 <= i < n ==> s[i] == l[i];
    if l != [] { assert End(s[n - 1]) == s[n].start; }
  }

  lemma {:induction false} TilesSuffix(l: seq<Region>, x: Region, r: seq<Region>, lo: nat, hi: nat)
    requires Tiles(l + [x] + r, lo, hi)
    ensures TilesOrEmpty(r, End(x), hi)
  {
    var s, n := l + [x] + r, |l|;
    assert s[n] == x;
    assert forall i :: 0 <= i < |r| ==> s[n + 1 + i] == r[i];
    if r != [] { assert End(s[n]) == s[n + 1].start; }
  }

  lemma {:induction false} DataConcat(l: seq<VmItem>, x: VmItem, r: seq<VmItem>)
    ensures Data(l + [x] + r) == Data(l) + [x.data] + Data(r)
  {
  }

  /** The tiling as the search sees it: each subtree tiles its own part of the window. */
  ghost predicate TreeTiles(t: VmTree, lo: nat, hi: nat) {
    if t.Leaf? then lo == hi
    else
      && t.entry.data.size > 0
      && TreeTiles(t.left, lo, t.entry.data.start) && TreeTiles(t.right, End(t.entry.data), hi)
  }

  lemma {:induction false} TilesTree(t: VmTree, lo: nat, hi: nat)
    requires TilesOrEmpty(Data(InOrder(t)), lo, hi)
    ensures TreeTiles(t, lo, hi)
  {
    if t.Branch? {
      DataConcat(InOrder(t.left), t.entry, InOrder(t.right));
      TilesPrefix(Data(InOrder(t.left)), t.entry.data, Data(InOrder(t.right)), lo, hi);
      TilesSuffix(Data(InOrder(t.left)), t.entry.data, Data(InOrder(t.right)), lo, hi);
      TilesTree(t.left, lo, t.entry.data.start);
      TilesTree(t.right, End(t.entry.data), hi);
    }
  }

  ghost predicate Covers(r: Region, addr: nat) { r.start <= addr < End(r) }

  lemma {:induction false} CoverSearch(t: VmTree, addr: nat, lo: nat, hi: nat)
    requires TreeTiles(t, lo, hi) && hi < WORD
    ensures lo <= hi
    ensures var r := Search(t, ProbeCover(addr));
      if lo <= addr < hi then r.Branch? && Covers(r.entry.data, addr) else r.Leaf?
  {
    if t.Branch? {
      CoverSearch(t.right, addr, End(t.entry.data), hi);
      CoverSearch(t.left, addr, lo, t.entry.data.start);
    }
  }

  /** The covering-address search: in a tiled tree it finds the region an address of the window
  lies in, and NULL for every other address. */
  lemma {:induction false} CoverFinds(t: VmTree, addr: nat, lo: nat, hi: nat)
    requires Tiles(Data(InOrder(t)), lo, hi) && hi < WORD
    ensures var r := Search(t, ProbeCover(addr));
      if lo <= addr < hi
      then r.Branch? && r.entry in InOrder(t) && Covers(r.entry.data, addr)
      else r.Leaf?
  {
    TilesTree(t, lo, hi);
    CoverSearch(t, addr, lo, hi);
    SearchMember(t, ProbeCover(addr));
  }

  /** Only one region of a tiling covers an address. */
  lemma {:induction false} CoverUnique(s: seq<Region>, lo: nat, hi: nat, i: int, j: int, addr: nat)
    requires Tiles(s, lo, hi) && 0 <= i < |s| && 0 <= j < |s| && Covers(s[i], addr) && Covers(s[j], addr)
    ensures i == j
  {
    if i < j { TilesOrdered(s, lo, hi, i, j); }
    if j < i { TilesOrdered(s, lo, hi, j, i); }
  }

  ghost predicate AllOrdered(t: VmTree, addr: nat) {
    t.Branch? ==>
      OrderedRight(t.entry.data.start, addr) && AllOrdered(t.left, addr) && AllOrdered(t.right, addr)
  }

  ghost predicate Starts(t: VmTree, addr: nat) {
    t.Branch? && (t.entry.data.start == addr || Starts(t.left, addr) || Starts(t.right, addr))
  }

  lemma {:induction false} StartsWithin(t: VmTree, addr: nat, lo: nat, hi: nat)
    requires TreeTiles(t, lo, hi)
    ensures lo <= hi && (Starts(t, addr) ==> lo <= addr < hi)
  {
    if t.Branch? {
      StartsWithin(t.left, addr, lo, t.entry.data.start);
      StartsWithin(t.right, addr, End(t.entry.data), hi);
    }
  }

  /** The search for a start address, among start addresses close enough for the comparator. */
  lemma {:induction false} AddrFinds(t: VmTree, addr: nat, lo: nat, hi: nat)
    requires TreeTiles(t, lo, hi) && AllOrdered(t, addr)
    ensures var r := Search(t, ProbeAddr(addr));
      (r.Branch? <==> Starts(t, addr)) && (r.Branch? ==> r.entry.data.start == addr)
  {
    if t.Branch? {
      AddrFinds(t.left, addr, lo, t.entry.data.start);
      AddrFinds(t.right, addr, End(t.entry.data), hi);
      StartsWithin(t.left, addr, lo, t.entry.data.start);
      StartsWithin(t.right, addr, End(t.entry.data), hi);
    }
  }

  // ----- what allocation and freeing do to the list of regions -----

  /** A 64-bit sum. */
  function Wrap(n: nat): nat { n % WORD }

  /** Lines 150-161: the first `size` bytes of region `j` become the allocation, the rest a new
  free region, with the start and the size of the rest computed in 64 bits. */
  function Carve(s: seq<Region>, j: int, size: nat, kind: Kind, flags: nat): (r: seq<Region>)
    requires 0 <= j < |s|
  {
    s[..j] + [Taken(s[j], size, kind, flags), Leftover(s[j], size)] + s[j + 1..]
  }

  function Taken(r: Region, size: nat, kind: Kind, flags: nat): Region {
    Region(r.start, size, kind, flags)
  }

  function Leftover(r: Region, size: nat): Region {
    Region(Wrap(r.start + size), (r.size - size) % WORD, Free, 0)
  }

  /** The start of the rest does not wrap when the rest is part of the window. */
  lemma {:induction false} LeftoverStart(s: seq<Region>, j: int, size: nat, lo: nat, hi: nat)
    requires Tiles(s, lo, hi) && hi < WORD && 0 <= j < |s| && size < s[j].size
    ensures Leftover(s[j], size) == Region(s[j].start + size, s[j].size - size, Free, 0)
  {
    TilesUpTo(s, lo, hi, j);
  }

  /** Cutting a tiling between two regions leaves two tilings. */
  lemma {:induction false} TilesCut(s: seq<Region>, lo: nat, hi: nat, a: int)
    requires Tiles(s, lo, hi) && 0 <= a <= |s|
    ensures var m := if a < |s| then s[a].start else hi; TilesOrEmpty(s[..a], lo, m) && TilesOrEmpty(s[a..], m, hi)
  {
    if 0 < a < |s| { assert End(s[a - 1]) == s[a].start; }
  }

  lemma {:induction false} TilesGlue(l: seq<Region>, x: Region, r: seq<Region>, lo: nat, hi: nat)
    requires TilesOrEmpty(l, lo, x.start) && x.size > 0 && TilesOrEmpty(r, End(x), hi)
    ensures Tiles(l + [x] + r, lo, hi)
  {
    var s := l + [x] + r;
    assert s[|l|] == x && (l != [] ==> s[0] == l[0] && s[|l| - 1] == l[|l| - 1]) &&
      (r != [] ==> s[|s| - 1] == r[|r| - 1]);
    forall i | 0 <= i < |s| ensures s[i].size > 0 && (i < |s| - 1 ==> End(s[i]) == s[i + 1].start) {
      if i < |l| - 1 { assert s[i] == l[i] && s[i + 1] == l[i + 1]; }
      else if i > |l| {
        assert s[i] == r[i - |l| - 1];
        if i < |s| - 1 { assert s[i + 1] == r[i - |l|]; }
      }
    }
  }

  /** Nothing compares the request with the region found. The regions still tile the window
  exactly when the request is positive and smaller than the region. */
  lemma {:induction false} CarveTiles(s: seq<Region>, j: int, size: nat, kind: Kind, flags: nat, lo: nat, hi: nat)
    requires Tiles(s, lo, hi) && hi < WORD && 0 <= j < |s| && size < WORD && size != s[j].size
    ensures Tiles(Carve(s, j, size, kind, flags), lo, hi) <==> 0 < size < s[j].size
  {
    if 0 < size < s[j].size {
      CarveFits(s, j, size, kind, flags, lo, hi);
    } else if Tiles(Carve(s, j, size, kind, flags), lo, hi) {
      CarveOverlaps(s, j, size, kind, flags, lo, hi);
    }
  }

  lemma {:induction false} CarveFits(s: seq<Region>, j: int, size: nat, kind: Kind, flags: nat, lo: nat, hi: nat)
    requires Tiles(s, lo, hi) && hi < WORD && 0 <= j < |s| && 0 < size < s[j].size
    ensures Tiles(Carve(s, j, size, kind, flags), lo, hi)
  {
    var x, rest := Taken(s[j], size, kind, flags), Leftover(s[j], size);
    LeftoverStart(s, j, size, lo, hi);
    TilesCut(s, lo, hi, j);
    TilesCut(s, lo, hi, j + 1);
    assert End(s[j]) == if j + 1 < |s| then s[j + 1].start else hi;
    TilesGlue([], rest, s[j + 1..], End(x), hi);
    assert [] + [rest] + s[j + 1..] == [rest] + s[j + 1..];
    TilesGlue(s[..j], x, [rest] + s[j + 1..], lo, hi);
    assert s[..j] + [x] + ([rest] + s[j + 1..]) == Carve(s, j, size, kind, flags);
  }

  lemma {:induction false} CarveOverlaps(s: seq<Region>, j: int, size: nat, kind: Kind, flags: nat, lo: nat, hi: nat)
    requires Tiles(s, lo, hi) && hi < WORD && 0 <= j < |s| && size < WORD
    requires Tiles(Carve(s, j, size, kind, flags), lo, hi)
    ensures 0 < size < s[j].size
  {
    var r := Carve(s, j, size, kind, flags);
    assert r[j] == Taken(s[j], size, kind, flags) && r[j + 1] == Leftover(s[j], size);
    assert End(r[j]) == r[j + 1].start;
    TilesUpTo(s, lo, hi, j);
    TilesUpTo(r, lo, hi, j + 1);
  }

  lemma {:induction false} CarveCoalesced(s: seq<Region>, j: int, size: nat, kind: Kind, flags: nat)
    requires Coalesced(s) && 0 <= j < |s| && s[j].kind.Free? && !kind.Free?
    ensures Coalesced(Carve(s, j, size, kind, flags))
  {
    var r := Carve(s, j, size, kind, flags);
    assert forall i :: 0 <= i < j ==> r[i] == s[i];
    assert forall i :: j + 1 < i < |r| ==> r[i] == s[i - 1];
    forall i | 0 <= i < |r| - 1 ensures !(r[i].kind.Free? && r[i + 1].kind.Free?) {
      if i == j + 1 { assert r[i + 1] == s[j + 1]; }
    }
  }

  lemma {:induction false} ExactFitKeeps(s: seq<Region>, j: int, kind: Kind, flags: nat, lo: nat, hi: nat)
    requires Tiles(s, lo, hi) && Coalesced(s) && 0 <= j < |s| && !kind.Free?
    ensures var r := s[j := Taken(s[j], s[j].size, kind, flags)]; Tiles(r, lo, hi) && Coalesced(r)
  {
  }

  predicate FreeAt(s: seq<Region>, i: int) {
    0 <= i < |s| && s[i].kind.Free?
  }

  /** Lines 231-289: freeing region `j`, with its free neighbours merged into one region. */
  function Release(s: seq<Region>, j: int): (r: seq<Region>)
    requires 0 <= j < |s|
  {
    if FreeAt(s, j + 1) && FreeAt(s, j - 1) then
      s[..j - 1] + [s[j - 1].(size := Wrap(s[j + 1].size + s[j - 1].size + s[j].size))] + s[j + 2..]
    else if FreeAt(s, j - 1) then
      s[..j - 1] + [s[j - 1].(size := Wrap(s[j - 1].size + s[j].size))] + s[j + 1..]
    else if FreeAt(s, j + 1) then
      s[..j] + [s[j].(size := Wrap(s[j + 1].size + s[j].size), kind := Free)] + s[j + 2..]
    else
      s[j := s[j].(kind := Free)]
  }

  /** Merging a run of regions into one keeps the tiling. */
  lemma {:induction false} MergeTiles(s: seq<Region>, a: int, b: int, m: Region, lo: nat, hi: nat)
    requires Tiles(s, lo, hi) && 0 <= a < b <= |s|
    requires m.start == s[a].start && End(m) == End(s[b - 1])
    ensures Tiles(s[..a] + [m] + s[b..], lo, hi)
  {
    TilesOrdered(s, lo, hi, a, b - 1);
    TilesCut(s, lo, hi, a);
    TilesCut(s, lo, hi, b);
    assert End(s[b - 1]) == if b < |s| then s[b].start else hi;
    TilesGlue(s[..a], m, s[b..], lo, hi);
  }

  lemma {:induction false} MergeCoalesced(s: seq<Region>, a: int, b: int, m: Region)
    requires Coalesced(s) && 0 <= a < b <= |s| && m.kind.Free?
    requires !FreeAt(s, a - 1) && !FreeAt(s, b)
    ensures Coalesced(s[..a] + [m] + s[b..])
  {
    var r := s[..a] + [m] + s[b..];
    assert r[a] == m;
    assert forall i :: 0 <= i < a ==> r[i] == s[i];
    assert forall i :: a < i < |r| ==> r[i] == s[i + b - a - 1];
  }

  /** The run of regions that freeing region `j` merges. */
  ghost function RunFrom(s: seq<Region>, j: int): int { if FreeAt(s, j - 1) then j - 1 else j }
  ghost function RunTo(s: seq<Region>, j: int): int { if FreeAt(s, j + 1) then j + 2 else j + 1 }

  /** The region the run becomes. */
  ghost function Merged(s: seq<Region>, j: int): Region
    requires 0 <= j < |s|
  {
    var before := if FreeAt(s, j - 1) then s[j - 1].size else 0;
    var after := if FreeAt(s, j + 1) then s[j + 1].size else 0;
    s[RunFrom(s, j)].(size := after + before + s[j].size, kind := Free)
  }

  lemma {:induction false} ReleaseMerges(s: seq<Region>, j: int)
    requires 0 <= j < |s| && Merged(s, j).size < WORD
    ensures Release(s, j) == s[..RunFrom(s, j)] + [Merged(s, j)] + s[RunTo(s, j)..]
  {
    if FreeAt(s, j - 1) {
      MergesBelow(s, j);
    } else if FreeAt(s, j + 1) {
      assert s[j].(size := Wrap(s[j + 1].size + s[j].size), kind := Free) == Merged(s, j);
    } else {
      assert s[j].(kind := Free) == Merged(s, j);
      SetMiddle(s, j, Merged(s, j));
    }
  }

  lemma {:induction false} MergesBelow(s: seq<Region>, j: int)
    requires 0 <= j < |s| && Merged(s, j).size < WORD && FreeAt(s, j - 1)
    ensures Release(s, j) == s[..RunFrom(s, j)] + [Merged(s, j)] + s[RunTo(s, j)..]
  {
    if FreeAt(s, j + 1) {
      assert s[j - 1].(size := Wrap(s[j + 1].size + s[j - 1].size + s[j].size)) == Merged(s, j);
    } else {
      assert s[j - 1].(size := Wrap(s[j - 1].size + s[j].size)) == Merged(s, j);
    }
  }

  lemma {:induction false} SetMiddle<T>(s: seq<T>, j: int, x: T)
    requires 0 <= j < |s|
    ensures s[j := x] == s[..j] + [x] + s[j + 1..]
  {
  }

  lemma {:induction false} MergedSpan(s: seq<Region>, j: int, lo: nat, hi: nat)
    requires Tiles(s, lo, hi) && 0 <= j < |s|
    ensures Merged(s, j).start == s[RunFrom(s, j)].start && End(Merged(s, j)) == End(s[RunTo(s, j) - 1])
  {
    if j > 0 { assert End(s[j - 1]) == s[j].start; }
    if j + 1 < |s| { assert End(s[j]) == s[j + 1].start; }
  }

  /** All four coalescing cases keep the window tiled and leave no two adjacent free regions. */
  lemma {:induction false} ReleaseKeeps(s: seq<Region>, j: int, lo: nat, hi: nat)
    requires Tiles(s, lo, hi) && hi < WORD && Coalesced(s) && 0 <= j < |s| && !s[j].kind.Free?
    ensures Tiles(Release(s, j), lo, hi) && Coalesced(Release(s, j))
  {
    var m := Merged(s, j);
    MergedSpan(s, j, lo, hi);
    TilesUpTo(s, lo, hi, RunTo(s, j) - 1);
    ReleaseMerges(s, j);
    MergeTiles(s, RunFrom(s, j), RunTo(s, j), m, lo, hi);
    RunEnds(s, j);
    MergeCoalesced(s, RunFrom(s, j), RunTo(s, j), m);
  }

  lemma {:induction false} RunEnds(s: seq<Region>, j: int)
    requires Coalesced(s) && 0 <= j < |s|
    ensures !FreeAt(s, RunFrom(s, j) - 1) && !FreeAt(s, RunTo(s, j))
  {
  }

  /** Freeing what was just allocated gives the list back, up to the stale flags of the free region. */
  lemma {:induction false} AllocateThenFree(s: seq<Region>, j: int, size: nat, kind: Kind, flags: nat, lo: nat, hi: nat)
    requires Tiles(s, lo, hi) && hi < WORD && Coalesced(s) && FreeAt(s, j) && !kind.Free?
    ensures 0 < size < s[j].size ==> Release(Carve(s, j, size, kind, flags), j) == s[j := s[j].(flags := flags)]
    ensures Release(s[j := Taken(s[j], s[j].size, kind, flags)], j) == s[j := s[j].(flags := flags)]
  {
    FreeAlone(s, j);
    TakenThenFree(s, j, kind, flags);
    if 0 < size < s[j].size {
      TilesUpTo(s, lo, hi, j);
      SplitThenFree(s, j, size, kind, flags);
    }
  }

  lemma {:induction false} FreeAlone(s: seq<Region>, j: int)
    requires Coalesced(s) && FreeAt(s, j)
    ensures !FreeAt(s, j - 1) && !FreeAt(s, j + 1)
  {
  }

  lemma {:induction false} SplitThenFree(s: seq<Region>, j: int, size: nat, kind: Kind, flags: nat)
    requires FreeAt(s, j) && !FreeAt(s, j - 1) && 0 < size < s[j].size < WORD
    ensures Release(Carve(s, j, size, kind, flags), j) == s[j := s[j].(flags := flags)]
  {
    CarveThenFree(s[..j], s[j], s[j + 1..], size, kind, flags);
    SetMiddle(s, j, s[j]);
    SetMiddle(s, j, s[j].(flags := flags));
  }

  lemma {:induction false} TakenThenFree(s: seq<Region>, j: int, kind: Kind, flags: nat)
    requires FreeAt(s, j) && !FreeAt(s, j - 1) && !FreeAt(s, j + 1)
    ensures Release(s[j := Taken(s[j], s[j].size, kind, flags)], j) == s[j := s[j].(flags := flags)]
  {
    var r := s[j := Taken(s[j], s[j].size, kind, flags)];
    assert !FreeAt(r, j - 1) && !FreeAt(r, j + 1);
  }

  lemma {:induction false} CarveThenFree(l: seq<Region>, x: Region, r: seq<Region>, size: nat, kind: Kind, flags: nat)
    requires x.kind.Free? && 0 < size < x.size < WORD && !FreeAt(l, |l| - 1)
    ensures var s := l + [x] + r;
      Release(Carve(s, |l|, size, kind, flags), |l|) == l + [x.(flags := flags)] + r
  {
    var s, a, b := l + [x] + r, Taken(x, size, kind, flags), Leftover(x, size);
    assert s[..|l|] == l && s[|l|] == x && s[|l| + 1..] == r;
    ReleasePair(l, a, b, r);
    assert Wrap(b.size + a.size) == x.size;
  }

  lemma {:induction false} ReleasePair(l: seq<Region>, a: Region, b: Region, r: seq<Region>)
    requires b.kind.Free? && !FreeAt(l, |l| - 1)
    ensures Release(l + [a, b] + r, |l|) == l + [a.(size := Wrap(b.size + a.size), kind := Free)] + r
  {
    var s := l + [a, b] + r;
    assert s[|l|] == a && s[|l| + 1] == b && s[..|l|] == l && s[|l| + 2..] == r;
    assert |l| > 0 ==> s[|l| - 1] == l[|l| - 1];
  }
}
