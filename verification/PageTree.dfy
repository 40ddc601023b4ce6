/** The four-level page tables of `memory/vmm.c` as a value: physical memory, which frame holds which
table, and the translation they stand for (Intel SDM volume 3A, section 4.5; 4 KiB pages only). */
module PageTree {
  import opened PageEntry

  const PAGES: nat := 0x10_0000_0000  // page numbers have 36 bits

  /** Which table: `depth` levels below the PML4, for the pages whose upper indices make `prefix`. */
  datatype Key = Key(depth: nat, prefix: nat)

  function Child(k: Key, i: nat): Key { Key(k.depth + 1, k.prefix * WORDS + i) }

  function Parent(k: Key): Key
    requires k.depth > 0
  {
    Key(k.depth - 1, k.prefix / WORDS)
  }

  lemma {:induction false} ParentOfChild(k: Key, i: nat)
    requires i < WORDS
    ensures Parent(Child(k, i)) == k
  {
  }

  lemma {:induction false} ChildInjective(k: Key, i: nat, q: Key, j: nat)
    requires i < WORDS && j < WORDS && Child(k, i) == Child(q, j)
    ensures k == q && i == j
  {
  }

  /** The table a page's path goes through at each depth. */
  function TableOf(page: nat, depth: nat): Key
    requires depth <= 3
  {
    Key(depth, if depth == 3 then page / WORDS else if depth == 2 then page / WORDS / WORDS
               else if depth == 1 then page / WORDS / WORDS / WORDS else 0)
  }

  /** The index into that table (vmm.c:35-37, 70). */
  function IndexAt(page: nat, depth: nat): (i: nat)
    requires depth <= 3
    ensures i < WORDS
  {
    (if depth == 3 then page else if depth == 2 then page / WORDS
     else if depth == 1 then page / WORDS / WORDS else page / WORDS / WORDS / WORDS) % WORDS
  }

  lemma {:induction false} PathStep(page: nat, depth: nat)
    requires page < PAGES && depth < 3
    ensures TableOf(page, depth + 1) == Child(TableOf(page, depth), IndexAt(page, depth))
  {
  }

  /** Splitting a page number into indices is injective. */
  lemma {:induction false} PageSplit(p: nat, q: nat)
    requires TableOf(p, 3) == TableOf(q, 3) && IndexAt(p, 3) == IndexAt(q, 3)
    ensures p == q
  {
  }

  /** The page tables: `tab` says which frame each table is in. */
  datatype View = View(tab: map<Key, nat>, mem: Memory, used: seq<bool>, root: nat)

  /** Every table is a frame of its own, in use, and hangs below its parent. */
  ghost predicate Framed(v: View) {
    && |v.mem| == |v.used| <= FRAME_LIMIT && 0 < |v.used| && v.used[0]
    && (forall f :: 0 <= f < |v.mem| ==> |v.mem[f]| == WORDS)
    && Key(0, 0) in v.tab && v.tab[Key(0, 0)] == v.root
    && (forall k :: k in v.tab ==> k.depth <= 3 && 0 < v.tab[k] < |v.used| && v.used[v.tab[k]])
    && (forall k, q :: k in v.tab && q in v.tab && v.tab[k] == v.tab[q] ==> k == q)
    && (forall k {:trigger Parent(k)} :: k in v.tab && k.depth > 0 ==> Parent(k) in v.tab)
  }

  ghost predicate EntryOk(v: View, k: Key, i: nat)
    requires Framed(v) && k in v.tab && i < WORDS
  {
    var e := v.mem[v.tab[k]][i];
    && !e.huge && !e.nx
    && (e.present <==> Child(k, i) in v.tab)
    && (e.present ==> e.frame == v.tab[Child(k, i)] && e.writeable && e.user)
  }

  /** And its entries lead to exactly its children, and withhold no right: the tables form an unshared tree. */
  ghost predicate WellFormed(v: View) {
    Framed(v) && forall k, i: nat :: k in v.tab && k.depth < 3 && i < WORDS ==> EntryOk(v, k, i)
  }

  /** The leaf entry of a page; all zero where no table covers it. */
  ghost function Leaf(v: View, page: nat): Entry
    requires Framed(v)
  {
    if TableOf(page, 3) in v.tab then v.mem[v.tab[TableOf(page, 3)]][IndexAt(page, 3)] else ZERO
  }

  /** The translation the tables stand for: page number to leaf entry. */
  ghost function Mapping(v: View): (m: map<nat, Entry>)
    requires Framed(v)
  {
    map p: nat | p < PAGES && Leaf(v, p).present :: Leaf(v, p)
  }

  ghost predicate SameLeaves(v: View, w: View)
    requires Framed(v) && Framed(w)
  {
    forall p: nat :: p < PAGES ==> Leaf(v, p) == Leaf(w, p)
  }

  lemma {:induction false} SameLeavesMapping(v: View, w: View)
    requires Framed(v) && Framed(w) && SameLeaves(v, w)
    ensures Mapping(v) == Mapping(w)
  {
  }

  // ----- the three ways memory changes -----

  /** A free frame is taken and zeroed. */
  ghost function Grown(v: View, f: nat): View
    requires f < |v.used| == |v.mem|
  {
    v.(used := v.used[f := true], mem := v.mem[f := ZeroFrame()])
  }

  lemma {:induction false} GrownKeeps(v: View, f: nat)
    requires WellFormed(v) && f < |v.used| && !v.used[f]
    ensures WellFormed(Grown(v, f)) && SameLeaves(v, Grown(v, f))
    ensures forall k :: k in v.tab ==> v.tab[k] != f
  {
    var w := Grown(v, f);
    forall k, i: nat | k in w.tab && k.depth < 3 && i < WORDS ensures EntryOk(w, k, i) {
      assert EntryOk(v, k, i);
    }
  }

  /** The entry `vmm_walk_and_crate_next_table` writes (lines 263-266). */
  function TableEntry(e: Entry, f: nat): Entry {
    e.(present := true, writeable := true, user := true, frame := f % FRAME_LIMIT)
  }

  /** A missing table is linked in: entry `i` of table `k` now leads to frame `f`. */
  ghost function Linked(v: View, k: Key, i: nat, f: nat): View
    requires Framed(v) && k in v.tab && i < WORDS
  {
    v.(tab := v.tab[Child(k, i) := f], mem := Stored(v.mem, v.tab[k], i, TableEntry(v.mem[v.tab[k]][i], f)))
  }

  lemma {:induction false} LinkedFramed(v: View, k: Key, i: nat, f: nat)
    requires WellFormed(v) && k in v.tab && k.depth < 3 && i < WORDS && Child(k, i) !in v.tab
    requires 0 < f < |v.used| && v.used[f] && forall q :: q in v.tab ==> v.tab[q] != f
    ensures Framed(Linked(v, k, i, f))
  {
    ParentOfChild(k, i);
  }

  /** Linking a zeroed frame in as a table changes no translation and keeps the tables a tree. */
  lemma {:induction false} LinkedKeeps(v: View, k: Key, i: nat, f: nat)
    requires WellFormed(v) && k in v.tab && k.depth < 3 && i < WORDS && Child(k, i) !in v.tab
    requires 0 < f < |v.used| && v.used[f] && v.mem[f] == ZeroFrame() && forall q :: q in v.tab ==> v.tab[q] != f
    ensures WellFormed(Linked(v, k, i, f)) && SameLeaves(v, Linked(v, k, i, f))
  {
    LinkedFramed(v, k, i, f);
    var w, c := Linked(v, k, i, f), Child(k, i);
    forall q, j: nat | q in w.tab && q.depth < 3 && j < WORDS ensures EntryOk(w, q, j) {
      LinkedEntry(v, k, i, f, q, j);
    }
    forall p: nat | p < PAGES ensures Leaf(v, p) == Leaf(w, p) {
      if TableOf(p, 3) in v.tab && TableOf(p, 3) != c {
        assert w.tab[TableOf(p, 3)] == v.tab[TableOf(p, 3)] != v.tab[k];
      }
    }
  }

  lemma {:induction false} LinkedEntry(v: View, k: Key, i: nat, f: nat, q: Key, j: nat)
    requires WellFormed(v) && k in v.tab && k.depth < 3 && i < WORDS && Child(k, i) !in v.tab
    requires 0 < f < |v.used| && v.used[f] && v.mem[f] == ZeroFrame() && forall q :: q in v.tab ==> v.tab[q] != f
    requires Framed(Linked(v, k, i, f)) && q in Linked(v, k, i, f).tab && q.depth < 3 && j < WORDS
    ensures EntryOk(Linked(v, k, i, f), q, j)
  {
    assert EntryOk(v, k, i);
    ParentOfChild(q, j);
    if q == Child(k, i) {
      assert Child(q, j) !in v.tab;
    } else {
      assert EntryOk(v, q, j);
      if Child(q, j) == Child(k, i) { ChildInjective(q, j, k, i); }
    }
  }

  /** The leaf entry of a page is overwritten. */
  ghost function WithLeaf(v: View, page: nat, e: Entry): View
    requires Framed(v) && TableOf(page, 3) in v.tab
  {
    v.(mem := Stored(v.mem, v.tab[TableOf(page, 3)], IndexAt(page, 3), e))
  }

  /** Overwriting one leaf changes that page's translation and no other, and no table. */
  lemma {:induction false} WithLeafKeeps(v: View, page: nat, e: Entry)
    requires WellFormed(v) && TableOf(page, 3) in v.tab
    ensures WellFormed(WithLeaf(v, page, e))
    ensures forall p: nat :: p < PAGES ==> Leaf(WithLeaf(v, page, e), p) == if p == page then e else Leaf(v, p)
  {
    var w := WithLeaf(v, page, e);
    assert Framed(w);
    forall q, j: nat | q in w.tab && q.depth < 3 && j < WORDS ensures EntryOk(w, q, j) {
      assert EntryOk(v, q, j);
    }
    forall p: nat | p < PAGES ensures Leaf(w, p) == if p == page then e else Leaf(v, p) {
      if p != page && TableOf(p, 3) == TableOf(page, 3) && IndexAt(p, 3) == IndexAt(page, 3) { PageSplit(p, page); }
    }
  }

  lemma {:induction false} MappingStored(v: View, page: nat, e: Entry)
    requires WellFormed(v) && page < PAGES && TableOf(page, 3) in v.tab
    ensures WellFormed(WithLeaf(v, page, e))
    ensures Mapping(WithLeaf(v, page, e)) == if e.present then Mapping(v)[page := e] else Mapping(v) - {page}
  {
    WithLeafKeeps(v, page, e);
  }
}
