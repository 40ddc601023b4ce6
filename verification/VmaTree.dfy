/** What `vma_allocate_memory_from_tree` (vma.c:126-162) does to the tree of regions, including
the refill of the node pool it can trigger on the way. */
module VmaTree {
  import opened AvlTree
  import opened AvlInsert
  import opened AvlNodes
  import opened AvlWalks
  import opened Regions

  const PAGE: nat := 4096
  const SLAB_FLAGS: nat := 0x61  // PT_GLOBAL | PT_WRITEABLE | PT_NX

  ghost function RegionsOf(t: VmTree): seq<Region> { Data(InOrder(t)) }

  /** Lines 146-147, 156-158: the region at position `j` is handed out. */
  ghost function TakeTree(t: VmTree, j: int, size: nat, kind: Kind, flags: nat): (r: VmTree)
    requires 0 <= j < |InOrder(t)|
  {
    var x := InOrder(t)[j];
    SetAt(t, j, Item(x.node, Taken(x.data, size, kind, flags)))
  }

  ghost function RestOf(t: VmTree, j: int, n: VmNode, size: nat): VmItem
    requires 0 <= j < |InOrder(t)|
  {
    Item(n, Leftover(InOrder(t)[j].data, size))
  }

  /** Lines 151-161: a split. The payload is overwritten first, then the rest is inserted. */
  ghost function SplitTree(t: VmTree, j: int, n: VmNode, size: nat, kind: Kind, flags: nat): (r: VmTree)
    requires DepthsExact(t) && 0 <= j < |InOrder(t)|
    ensures DepthsExact(r)
  {
    SetAtKeeps(t, j, TakenItem(t, j, size, kind, flags));
    var rest := RestOf(t, j, n, size);
    Insert(TakeTree(t, j, size, kind, flags), rest, rest.data.size, CompAddr, VmUpdate)
  }

  ghost function TakenItem(t: VmTree, j: int, size: nat, kind: Kind, flags: nat): VmItem
    requires 0 <= j < |InOrder(t)|
  {
    Item(InOrder(t)[j].node, Taken(InOrder(t)[j].data, size, kind, flags))
  }

  /** Every start address is within reach of the comparator from `addr`. */
  ghost predicate Within(s: seq<Region>, addr: nat) {
    forall i :: 0 <= i < |s| ==> -HALF_INT < s[i].start - addr < HALF_INT
  }

  /** At every node on the way of a region that starts at `addr` the comparator sends it to the side it belongs. */
  ghost predicate OnCourse(t: VmTree, addr: nat) {
    t.Branch? ==>
      && (ToInt(t.entry.data.start - addr) > 0 <==> t.entry.data.start > addr)
      && OnCourse(if ToInt(t.entry.data.start - addr) > 0 then t.left else t.right, addr)
  }

  lemma {:induction false} InReach(d: int)
    requires -HALF_INT < d < HALF_INT
    ensures ToInt(d) == d
  {
  }

  lemma {:induction false} WithinOnCourse(t: VmTree, addr: nat)
    requires Within(RegionsOf(t), addr)
    ensures OnCourse(t, addr)
  {
    if t.Branch? {
      var s, n := RegionsOf(t), |InOrder(t.left)|;
      assert s[n] == t.entry.data;
      InReach(s[n].start - addr);
      WithinParts(InOrder(t.left), t.entry, InOrder(t.right), addr);
      WithinOnCourse(t.left, addr);
      WithinOnCourse(t.right, addr);
    }
  }

  lemma {:induction false} WithinParts(l: seq<VmItem>, x: VmItem, r: seq<VmItem>, addr: nat)
    requires Within(Data(l + [x] + r), addr)
    ensures Within(Data(l), addr) && Within(Data(r), addr)
  {
    var s := Data(l + [x] + r);
    assert forall i :: 0 <= i < |l| ==> Data(l)[i] == s[i];
    assert forall i :: 0 <= i < |r| ==> Data(r)[i] == s[|l| + 1 + i];
  }

  /** `k` is where `addr` belongs among the starts, none of which it is. */
  ghost predicate Belongs(s: seq<VmItem>, addr: nat, k: int) {
    && 0 <= k <= |s|
    && (forall i :: 0 <= i < k ==> s[i].data.start < addr) && (forall i :: k <= i < |s| ==> s[i].data.start > addr)
  }

  lemma {:induction false} BelongsConcat(l: seq<VmItem>, x: VmItem, r: seq<VmItem>, addr: nat, k: int)
    requires Belongs(l + [x] + r, addr, k)
    ensures if x.data.start > addr then Belongs(l, addr, k) else k > |l| && Belongs(r, addr, k - |l| - 1)
  {
    var s := l + [x] + r;
    assert s[|l|] == x;
    assert forall i :: 0 <= i < |l| ==> l[i] == s[i];
    assert forall i :: 0 <= i < |r| ==> r[i] == s[|l| + 1 + i];
  }

  /** A region ends up where it belongs exactly when it stays on course. */
  lemma {:induction false} CoursePos(t: VmTree, e: VmItem, k: int)
    requires Belongs(InOrder(t), e.data.start, k)
    ensures InsertPos(t, e, CompAddr) == k <==> OnCourse(t, e.data.start)
  {
    if t.Branch? {
      var l, r, addr := InOrder(t.left), InOrder(t.right), e.data.start;
      BelongsConcat(l, t.entry, r, addr, k);
      assert (l + [t.entry] + r)[|l|] == t.entry;
      if t.entry.data.start > addr {
        CoursePos(t.left, e, k);
      } else {
        CoursePos(t.right, e, k - |l| - 1);
      }
    }
  }

  /** A store that leaves the start alone does not matter to it. */
  lemma {:induction false} CourseStays(t: VmTree, j: int, x: VmItem, addr: nat)
    requires 0 <= j < |InOrder(t)| && x.data.start == InOrder(t)[j].data.start
    ensures OnCourse(SetAt(t, j, x), addr) <==> OnCourse(t, addr)
  {
    var l, r := InOrder(t.left), InOrder(t.right);
    if j < |l| {
      assert InOrder(t)[j] == l[j];
      CourseStays(t.left, j, x, addr);
    } else if j > |l| {
      assert InOrder(t)[j] == r[j - |l| - 1];
      CourseStays(t.right, j - |l| - 1, x, addr);
    }
  }

  /** The rest belongs right after the allocation. */
  lemma {:induction false} RestBelongs(t: VmTree, j: int, n: VmNode, size: nat, kind: Kind, flags: nat, lo: nat,
      hi: nat)
    requires Tiles(RegionsOf(t), lo, hi) && hi < WORD && 0 <= j < |InOrder(t)| && 0 < size < InOrder(t)[j].data.size
    ensures RestOf(t, j, n, size).data.start == InOrder(t)[j].data.start + size
    ensures Belongs(InOrder(t)[j := TakenItem(t, j, size, kind, flags)], RestOf(t, j, n, size).data.start, j + 1)
  {
    var x, rest := TakenItem(t, j, size, kind, flags), RestOf(t, j, n, size);
    var u := InOrder(t)[j := x];
    LeftoverStart(RegionsOf(t), j, size, lo, hi);
    forall i | 0 <= i < |u|
      ensures i <= j ==> u[i].data.start < rest.data.start
      ensures i > j ==> u[i].data.start > rest.data.start
    {
      if i <= j {
        TilesOrdered(RegionsOf(t), lo, hi, i, j);
      } else {
        TilesOrdered(RegionsOf(t), lo, hi, j, i);
      }
    }
  }

  /** So that is where it goes exactly when it stays on course. */
  lemma {:induction false} SplitPlace(t: VmTree, j: int, n: VmNode, size: nat, kind: Kind, flags: nat, lo: nat, hi: nat)
    requires Tiles(RegionsOf(t), lo, hi) && hi < WORD && 0 <= j < |InOrder(t)| && 0 < size < InOrder(t)[j].data.size
    ensures InsertPos(TakeTree(t, j, size, kind, flags), RestOf(t, j, n, size), CompAddr) == j + 1 <==>
            OnCourse(t, InOrder(t)[j].data.start + size)
  {
    var x, rest := TakenItem(t, j, size, kind, flags), RestOf(t, j, n, size);
    SetAtKeeps(t, j, x);
    RestBelongs(t, j, n, size, kind, flags, lo, hi);
    CoursePos(TakeTree(t, j, size, kind, flags), rest, j + 1);
    CourseStays(t, j, x, rest.data.start);
  }

  /** Whatever the comparator answers, the rest goes where that leads and nothing else moves. */
  lemma {:induction false} SplitList(t: VmTree, j: int, n: VmNode, size: nat, kind: Kind, flags: nat) returns (k: int)
    requires DepthsExact(t) && 0 <= j < |InOrder(t)|
    ensures 0 <= k <= |InOrder(t)| && k == InsertPos(TakeTree(t, j, size, kind, flags), RestOf(t, j, n, size), CompAddr)
    ensures InOrder(SplitTree(t, j, n, size, kind, flags)) ==
            InsertAt(InOrder(t)[j := TakenItem(t, j, size, kind, flags)], k, RestOf(t, j, n, size))
  {
    var rest := RestOf(t, j, n, size);
    SetAtKeeps(t, j, TakenItem(t, j, size, kind, flags));
    k := InsertPos(TakeTree(t, j, size, kind, flags), rest, CompAddr);
    InsertThere(TakeTree(t, j, size, kind, flags), rest, rest.data.size, CompAddr, VmUpdate);
  }

  lemma {:induction false} CarveItems(s: seq<VmItem>, j: int, x: VmItem, rest: VmItem, size: nat, kind: Kind,
      flags: nat)
    requires 0 <= j < |s| && x.data == Taken(s[j].data, size, kind, flags) && rest.data == Leftover(s[j].data, size)
    ensures Data(InsertAt(s[j := x], j + 1, rest)) == Carve(Data(s), j, size, kind, flags)
  {
    var u, c := InsertAt(s[j := x], j + 1, rest), Carve(Data(s), j, size, kind, flags);
    assert |u| == |c|;
    forall i | 0 <= i < |u| ensures Data(u)[i] == c[i] {
      if i > j + 1 { assert u[i] == s[i - 1] && c[i] == Data(s)[i - 1]; }
      else if i < j { assert u[i] == s[i]; }
    }
  }

  /** The list after an allocation of `size` bytes at the start of region `j`: that one is recorded with the size,
  kind and flags asked for, the others are as they were, and what is left over is free, somewhere in the list. */
  ghost predicate Recorded(before: seq<Region>, after: seq<Region>, j: int, size: nat, kind: Kind, flags: nat) {
    && 0 <= j < |before|
    && var r := before[j];
      if size == r.size then after == before[j := Region(r.start, size, kind, flags)]
      else exists k :: RecordedAt(before, after, j, k, size, kind, flags)
  }

  /** Somewhere being position `k`. */
  ghost predicate RecordedAt(before: seq<Region>, after: seq<Region>, j: int, k: int, size: nat, kind: Kind, flags: nat)
    requires 0 <= j < |before|
  {
    && 0 <= k <= |before|
    && var r := before[j];
      var rest := Region((r.start + size) % WORD, (r.size - size) % WORD, Free, 0);
      after == before[j := Region(r.start, size, kind, flags)][..k] + [rest] +
               before[j := Region(r.start, size, kind, flags)][k..]
  }

  lemma {:induction false} TakeRecorded(t: VmTree, j: int, kind: Kind, flags: nat)
    requires 0 <= j < |InOrder(t)|
    ensures var size := InOrder(t)[j].data.size;
      Recorded(RegionsOf(t), RegionsOf(TakeTree(t, j, size, kind, flags)), j, size, kind, flags)
  {
    SetAtKeeps(t, j, TakenItem(t, j, InOrder(t)[j].data.size, kind, flags));
  }

  lemma {:induction false} SplitRecorded(t: VmTree, j: int, n: VmNode, size: nat, kind: Kind, flags: nat)
    requires DepthsExact(t) && 0 <= j < |InOrder(t)| && size != InOrder(t)[j].data.size
    ensures Recorded(RegionsOf(t), RegionsOf(SplitTree(t, j, n, size, kind, flags)), j, size, kind, flags)
  {
    var k := SplitList(t, j, n, size, kind, flags);
    ItemsRecorded(InOrder(t), j, k, TakenItem(t, j, size, kind, flags), RestOf(t, j, n, size), size, kind, flags);
  }

  lemma {:induction false} ItemsRecorded(s: seq<VmItem>, j: int, k: int, x: VmItem, rest: VmItem, size: nat, kind: Kind,
      flags: nat)
    requires 0 <= j < |s| && 0 <= k <= |s|
    requires x.data == Taken(s[j].data, size, kind, flags) && rest.data == Leftover(s[j].data, size)
    ensures RecordedAt(Data(s), Data(InsertAt(s[j := x], k, rest)), j, k, size, kind, flags)
  {
    var u, d := InsertAt(s[j := x], k, rest), Data(s)[j := Taken(s[j].data, size, kind, flags)];
    var c := d[..k] + [Leftover(s[j].data, size)] + d[k..];
    forall i | 0 <= i < |u| ensures Data(u)[i] == c[i] {
      if i > k { assert u[i] == s[j := x][i - 1] && c[i] == d[i - 1]; }
    }
    assert Data(u) == c;
  }

  /** A split that stays on course carves its region in two. */
  lemma {:induction false} SplitCarves(t: VmTree, j: int, n: VmNode, size: nat, kind: Kind, flags: nat, lo: nat,
      hi: nat)
    requires DepthsExact(t) && Tiles(RegionsOf(t), lo, hi) && hi < WORD && 0 <= j < |InOrder(t)|
    requires 0 < size < InOrder(t)[j].data.size && OnCourse(t, InOrder(t)[j].data.start + size)
    ensures InOrder(SplitTree(t, j, n, size, kind, flags)) ==
            InsertAt(InOrder(t)[j := TakenItem(t, j, size, kind, flags)], j + 1, RestOf(t, j, n, size))
    ensures RegionsOf(SplitTree(t, j, n, size, kind, flags)) == Carve(RegionsOf(t), j, size, kind, flags)
  {
    var k := SplitList(t, j, n, size, kind, flags);
    SplitPlace(t, j, n, size, kind, flags, lo, hi);
    CarveItems(InOrder(t), j, TakenItem(t, j, size, kind, flags), RestOf(t, j, n, size), size, kind, flags);
  }

  /** That is, it puts the rest right after the allocation, which is recorded as asked for, and touches no other
  region. */
  lemma {:induction false} SplitRegions(t: VmTree, j: int, n: VmNode, size: nat, kind: Kind, flags: nat, lo: nat,
      hi: nat)
    requires DepthsExact(t) && Tiles(RegionsOf(t), lo, hi) && hi < WORD && 0 <= j < |InOrder(t)|
    requires 0 < size < InOrder(t)[j].data.size && OnCourse(t, InOrder(t)[j].data.start + size)
    ensures var (s, r) := (RegionsOf(t), RegionsOf(t)[j]);
      RegionsOf(SplitTree(t, j, n, size, kind, flags)) ==
        s[..j] + [Region(r.start, size, kind, flags), Region(r.start + size, r.size - size, Free, 0)] + s[j + 1..]
  {
    SplitCarves(t, j, n, size, kind, flags, lo, hi);
    LeftoverStart(RegionsOf(t), j, size, lo, hi);
  }

  /** Anywhere else the rest breaks the tiling. */
  lemma {:induction false} ElsewhereBreaks(s: seq<VmItem>, j: int, x: VmItem, rest: VmItem, k: int, lo: nat, hi: nat)
    requires Tiles(Data(s), lo, hi) && 0 <= j < |s| && 0 <= k <= |s| && k != j + 1
    requires x.data.start == s[j].data.start && 0 < x.data.size < s[j].data.size && rest.data.start == End(x.data)
    ensures !Tiles(Data(InsertAt(s[j := x], k, rest)), lo, hi)
  {
    var d, u := Data(s), InsertAt(s[j := x], k, rest);
    var r := Data(u);
    if k <= j {
      assert u[k] == rest && u[j + 1] == x;
      if Tiles(r, lo, hi) { TilesOrdered(r, lo, hi, k, j + 1); }
    } else {
      assert u[j] == x && u[j + 1] == s[j + 1];
      assert End(d[j]) == d[j + 1].start;
      assert End(r[j]) != r[j + 1].start;
    }
  }

  /** Off course it does not: the window stays tiled exactly when the comparator sends the rest to the right side
  at every node on its way. */
  lemma {:induction false} SplitTilesWhen(t: VmTree, j: int, n: VmNode, size: nat, kind: Kind, flags: nat, lo: nat,
      hi: nat)
    requires DepthsExact(t) && Tiles(RegionsOf(t), lo, hi) && hi < WORD && 0 <= j < |InOrder(t)|
    requires 0 < size < InOrder(t)[j].data.size
    ensures Tiles(RegionsOf(SplitTree(t, j, n, size, kind, flags)), lo, hi) <==>
      OnCourse(t, InOrder(t)[j].data.start + size)
  {
    if OnCourse(t, InOrder(t)[j].data.start + size) {
      OnCourseTiles(t, j, n, size, kind, flags, lo, hi);
    } else {
      OffCourseBreaks(t, j, n, size, kind, flags, lo, hi);
    }
  }

  lemma {:induction false} OnCourseTiles(t: VmTree, j: int, n: VmNode, size: nat, kind: Kind, flags: nat, lo: nat,
      hi: nat)
    requires DepthsExact(t) && Tiles(RegionsOf(t), lo, hi) && hi < WORD && 0 <= j < |InOrder(t)|
    requires 0 < size < InOrder(t)[j].data.size && OnCourse(t, InOrder(t)[j].data.start + size)
    ensures Tiles(RegionsOf(SplitTree(t, j, n, size, kind, flags)), lo, hi)
  {
    var s := RegionsOf(t);
    SplitCarves(t, j, n, size, kind, flags, lo, hi);
    CarveFits(s, j, size, kind, flags, lo, hi);
  }

  lemma {:induction false} OffCourseBreaks(t: VmTree, j: int, n: VmNode, size: nat, kind: Kind, flags: nat, lo: nat,
      hi: nat)
    requires DepthsExact(t) && Tiles(RegionsOf(t), lo, hi) && hi < WORD && 0 <= j < |InOrder(t)|
    requires 0 < size < InOrder(t)[j].data.size && !OnCourse(t, InOrder(t)[j].data.start + size)
    ensures !Tiles(RegionsOf(SplitTree(t, j, n, size, kind, flags)), lo, hi)
  {
    var k := SplitList(t, j, n, size, kind, flags);
    SplitPlace(t, j, n, size, kind, flags, lo, hi);
    RestBelongs(t, j, n, size, kind, flags, lo, hi);
    ElsewhereBreaks(InOrder(t), j, TakenItem(t, j, size, kind, flags), RestOf(t, j, n, size), k, lo, hi);
  }

  /** A split keeps the cached maximum exact at every node and the tree AVL, although the node it
  splits is changed before the insertion: the insertion path always passes through that node. */
  lemma {:induction false} SplitKeepsCache(t: VmTree, j: int, n: VmNode, size: nat, kind: Kind, flags: nat, lo: nat,
      hi: nat)
    requires DepthsExact(t) && Tiles(RegionsOf(t), lo, hi) && hi < WORD && 0 <= j < |InOrder(t)|
    requires 0 < size < InOrder(t)[j].data.size && OnCourse(t, InOrder(t)[j].data.start + size)
    requires AugExact(t, VmUpdate)
    ensures AugExact(SplitTree(t, j, n, size, kind, flags), VmUpdate)
  {
    var x, rest := TakenItem(t, j, size, kind, flags), RestOf(t, j, n, size);
    SetAtKeeps(t, j, x);
    SplitPlace(t, j, n, size, kind, flags, lo, hi);
    StoreIsOnPath(t, j, x, rest, CompAddr, VmUpdate);
    InsertRepairsPath(TakeTree(t, j, size, kind, flags), rest, rest.data.size, CompAddr, VmUpdate);
  }

  lemma {:induction false} SplitKeepsBalance(t: VmTree, j: int, n: VmNode, size: nat, kind: Kind, flags: nat)
    requires DepthsExact(t) && Balanced(t) && 0 <= j < |InOrder(t)|
    ensures Balanced(SplitTree(t, j, n, size, kind, flags))
  {
    var rest := RestOf(t, j, n, size);
    SetAtKeeps(t, j, TakenItem(t, j, size, kind, flags));
    InsertBalanced(TakeTree(t, j, size, kind, flags), rest, rest.data.size, CompAddr, VmUpdate);
  }

  // ----- the refill of the node pool -----

  /** The refill's own allocation of one page (line 299). */
  ghost function SlabTree(t: VmTree, j: int, n: VmNode): (r: VmTree)
    requires DepthsExact(t) && 0 <= j < |InOrder(t)|
    ensures DepthsExact(r)
  {
    SetAtKeeps(t, j, TakenItem(t, j, PAGE, Regular, SLAB_FLAGS));
    if InOrder(t)[j].data.size == PAGE then TakeTree(t, j, PAGE, Regular, SLAB_FLAGS)
    else SplitTree(t, j, n, PAGE, Regular, SLAB_FLAGS)
  }

  /** It is ordinary memory the kernel may write to, so that the nodes in it can be paged in. */
  lemma {:induction false} SlabRecorded(t: VmTree, j: int, n: VmNode)
    requires DepthsExact(t) && 0 <= j < |InOrder(t)|
    ensures Recorded(RegionsOf(t), RegionsOf(SlabTree(t, j, n)), j, 4096, Regular, 0x61)
  {
    if InOrder(t)[j].data.size == PAGE {
      TakeRecorded(t, j, Regular, SLAB_FLAGS);
    } else {
      SplitRecorded(t, j, n, PAGE, Regular, SLAB_FLAGS);
    }
  }

  /** The slab page keeps the node, and so the start address, of the region it is cut from. */
  lemma {:induction false} SlabItem(t: VmTree, j: int, n: VmNode)
    requires DepthsExact(t) && 0 <= j < |InOrder(t)|
    ensures TakenItem(t, j, PAGE, Regular, SLAB_FLAGS) in InOrder(SlabTree(t, j, n))
  {
    var x := TakenItem(t, j, PAGE, Regular, SLAB_FLAGS);
    SetAtKeeps(t, j, x);
    assert InOrder(TakeTree(t, j, PAGE, Regular, SLAB_FLAGS))[j] == x;
    if InOrder(t)[j].data.size != PAGE {
      var rest := RestOf(t, j, n, PAGE);
      var k := InsertPos(TakeTree(t, j, PAGE, Regular, SLAB_FLAGS), rest, CompAddr);
      InsertThere(TakeTree(t, j, PAGE, Regular, SLAB_FLAGS), rest, rest.data.size, CompAddr, VmUpdate);
      assert InOrder(SlabTree(t, j, n))[if j < k then j else j + 1] == x;
    }
  }

  /** A heap split whose node request refills the pool (lines 324-328): the refill allocates a page
  from the same tree, and so from the same region, before the outer split resumes on it. */
  ghost function RefillTree(t: VmTree, j: int, inner: VmNode, outer: VmNode, size: nat, kind: Kind,
      flags: nat): (r: VmTree)
    requires DepthsExact(t) && 0 <= j < |InOrder(t)|
    ensures DepthsExact(r)
  {
    var slab := SlabTree(t, j, inner);
    SlabItem(t, j, inner);
    SplitTree(slab, PosOf(slab, TakenItem(t, j, PAGE, Regular, SLAB_FLAGS)), outer, size, kind, flags)
  }

  function Sum(s: seq<Region>): nat {
    if s == [] then 0 else s[0].size + Sum(s[1..])
  }

  lemma {:induction false} SumConcat(a: seq<Region>, b: seq<Region>)
    ensures Sum(a + b) == Sum(a) + Sum(b)
  {
    if a == [] {
      assert a + b == b;
    } else {
      assert (a + b)[1..] == a[1..] + b;
      SumConcat(a[1..], b);
    }
  }

  /** A tiling's sizes add up to the window: no byte is lost or counted twice. */
  lemma {:induction false} TilesSum(s: seq<Region>, lo: nat, hi: nat)
    requires TilesOrEmpty(s, lo, hi)
    ensures Sum(s) == hi - lo
  {
    if s != [] {
      assert s == [] + [s[0]] + s[1..];
      TilesSuffix([], s[0], s[1..], lo, hi);
      TilesSum(s[1..], End(s[0]), hi);
    }
  }

  lemma {:induction false} SumInsert(s: seq<VmItem>, k: int, e: VmItem)
    requires 0 <= k <= |s|
    ensures Sum(Data(InsertAt(s, k, e))) == Sum(Data(s)) + e.data.size
  {
    assert Data(InsertAt(s, k, e)) == Data(s[..k]) + ([e.data] + Data(s[k..]));
    SumConcat(Data(s[..k]), [e.data] + Data(s[k..]));
    SumConcat([e.data], Data(s[k..]));
    assert Sum([e.data]) == e.data.size;
    assert Data(s) == Data(s[..k]) + Data(s[k..]);
    SumConcat(Data(s[..k]), Data(s[k..]));
  }

  lemma {:induction false} SumStore(s: seq<Region>, j: int, x: Region)
    requires 0 <= j < |s|
    ensures Sum(s[j := x]) == Sum(s) - s[j].size + x.size
  {
    assert s == s[..j] + ([s[j]] + s[j + 1..]) && s[j := x] == s[..j] + ([x] + s[j + 1..]);
    SumConcat(s[..j], [s[j]] + s[j + 1..]);
    SumConcat([s[j]], s[j + 1..]);
    SumConcat(s[..j], [x] + s[j + 1..]);
    SumConcat([x], s[j + 1..]);
    assert Sum([x]) == x.size && Sum([s[j]]) == s[j].size;
  }

  /** After the refill the region at `j` is the slab page, and the window is still tiled. */
  lemma {:induction false} SlabRegions(t: VmTree, j: int, n: VmNode, lo: nat, hi: nat)
    requires DepthsExact(t) && Tiles(RegionsOf(t), lo, hi) && hi < WORD && 0 <= j < |InOrder(t)|
    requires PAGE <= InOrder(t)[j].data.size < WORD
    requires InOrder(t)[j].data.size != PAGE ==> OnCourse(t, InOrder(t)[j].data.start + PAGE)
    ensures var r := SlabTree(t, j, n);
      Tiles(RegionsOf(r), lo, hi)
  {
    if InOrder(t)[j].data.size != PAGE {
      OnCourseTiles(t, j, n, PAGE, Regular, SLAB_FLAGS, lo, hi);
    } else {
      WholeTiles(t, j, Regular, SLAB_FLAGS, lo, hi);
    }
  }

  lemma {:induction false} WholeTiles(t: VmTree, j: int, kind: Kind, flags: nat, lo: nat, hi: nat)
    requires Tiles(RegionsOf(t), lo, hi) && 0 <= j < |InOrder(t)|
    ensures Tiles(RegionsOf(TakeTree(t, j, InOrder(t)[j].data.size, kind, flags)), lo, hi)
  {
    var s, x := RegionsOf(t), TakenItem(t, j, InOrder(t)[j].data.size, kind, flags);
    SetAtKeeps(t, j, x);
    assert Data(InOrder(t)[j := x]) == s[j := x.data];
    WholeKeeps(s, j, x.data, lo, hi);
  }

  lemma {:induction false} WholeKeeps(s: seq<Region>, j: int, x: Region, lo: nat, hi: nat)
    requires Tiles(s, lo, hi) && 0 <= j < |s| && x.start == s[j].start && x.size == s[j].size
    ensures Tiles(s[j := x], lo, hi)
  {
  }

  lemma {:induction false} InsertSum(s: seq<VmItem>, j: int, x: VmItem, rest: VmItem, k: int, lo: nat, hi: nat)
    requires Tiles(Data(s), lo, hi) && 0 <= j < |s| && 0 <= k <= |s|
    requires x.data.size + rest.data.size != s[j].data.size
    ensures !Tiles(Data(InsertAt(s[j := x], k, rest)), lo, hi)
  {
    var r := Data(InsertAt(s[j := x], k, rest));
    SumInsert(s[j := x], k, rest);
    assert Data(s[j := x]) == Data(s)[j := x.data];
    SumStore(Data(s), j, x.data);
    TilesSum(Data(s), lo, hi);
    if Tiles(r, lo, hi) { TilesSum(r, lo, hi); }
  }

  /** A split of a region no larger than the request always ruins the tiling, wherever the
  comparator sends the rest: its size comes out as 0 or wraps. */
  lemma {:induction false} OversizedSplitBreaks(t: VmTree, j: int, n: VmNode, size: nat, kind: Kind, flags: nat,
      lo: nat, hi: nat)
    requires DepthsExact(t) && Tiles(RegionsOf(t), lo, hi) && 0 <= j < |InOrder(t)|
    requires InOrder(t)[j].data.size <= size < WORD
    ensures !Tiles(RegionsOf(SplitTree(t, j, n, size, kind, flags)), lo, hi)
  {
    var k := SplitList(t, j, n, size, kind, flags);
    InsertBreaks(InOrder(t), j, TakenItem(t, j, size, kind, flags), RestOf(t, j, n, size), k, size, lo, hi);
  }

  lemma {:induction false} InsertBreaks(s: seq<VmItem>, j: int, x: VmItem, rest: VmItem, k: int, size: nat, lo: nat,
      hi: nat)
    requires Tiles(Data(s), lo, hi) && 0 <= j < |s| && 0 <= k <= |s| && s[j].data.size <= size < WORD
    requires x.data.size == size && rest.data.size == (s[j].data.size - size) % WORD
    ensures !Tiles(Data(InsertAt(s[j := x], k, rest)), lo, hi)
  {
    if size == s[j].data.size {
      assert Data(InsertAt(s[j := x], k, rest))[k].size == 0;
    } else {
      assert rest.data.size == s[j].data.size - size + WORD;
      InsertSum(s, j, x, rest, k, lo, hi);
    }
  }

  /** A refill inside a heap split always ruins the tiling, for every whole-page request: the slab
  page is cut again as if it were the old region. */
  lemma {:induction false} RefillBreaksTiling(t: VmTree, j: int, inner: VmNode, outer: VmNode, size: nat, kind: Kind,
      flags: nat, lo: nat, hi: nat)
    requires DepthsExact(t) && Tiles(RegionsOf(t), lo, hi) && hi < WORD && 0 <= j < |InOrder(t)|
    requires size % PAGE == 0 && 0 < size < InOrder(t)[j].data.size < WORD
    requires InOrder(t)[j].data.size != PAGE ==> OnCourse(t, InOrder(t)[j].data.start + PAGE)
    ensures !Tiles(RegionsOf(RefillTree(t, j, inner, outer, size, kind, flags)), lo, hi)
  {
    SlabRegions(t, j, inner, lo, hi);
    SlabItem(t, j, inner);
    var slab := SlabTree(t, j, inner);
    OversizedSplitBreaks(slab, PosOf(slab, TakenItem(t, j, PAGE, Regular, SLAB_FLAGS)), outer, size, kind, flags, lo,
      hi);
  }
}
