/** The boot loader's page tables (`bootloader/efi.c`:461-523): every table a mapping needs is taken from the
firmware, and counted. */
module BootTables {
  import opened Seqs
  import opened PageEntry
  import opened PageTree
  import opened TablePath
  import V = Vmm

  const PAGE: nat := 0x1000

  type Byte = x: nat | x < 256

  /** The tables, the frames the firmware has left to give, the count of frames the kernel has to know
  about, and the bytes of frames. */
  datatype Machine = Machine(v: View, firmware: seq<nat>, count: nat, ram: map<nat, seq<Byte>>)

  /** Frames in no use, each with its bytes. */
  ghost predicate Spare(firmware: seq<nat>, used: seq<bool>, ram: map<nat, seq<Byte>>) {
    Distinct(firmware) && forall f :: f in firmware ==> 0 < f < |used| && !used[f] && f in ram && |ram[f]| == PAGE
  }

  ghost predicate Unmapped(firmware: seq<nat>, bound: map<nat, Entry>) {
    forall p :: p in bound ==> bound[p].frame !in firmware
  }

  /** The tables are well formed, and what the firmware still has to give is in no use. */
  ghost predicate Fresh(m: Machine) {
    WellFormed(m.v) && Spare(m.firmware, m.v.used, m.ram) && Unmapped(m.firmware, Mapping(m.v))
  }

  /** From `m` to `w` the next `n` frames of the firmware were taken, marked and counted. */
  ghost predicate Took(m: Machine, w: Machine, n: nat) {
    && n <= |m.firmware| && w.firmware == m.firmware[n..] && w.count == m.count + n
    && |w.v.used| == |m.v.used|
    && forall f: nat :: f < |m.v.used| ==> (w.v.used[f] <==> m.v.used[f] || f in m.firmware[..n])
  }

  lemma {:induction false} TookTrans(m: Machine, u: Machine, w: Machine, a: nat, b: nat)
    requires Took(m, u, a) && Took(u, w, b)
    ensures Took(m, w, a + b)
  {
    assert m.firmware[a..][b..] == m.firmware[a + b..];
    assert m.firmware[..a + b] == m.firmware[..a] + m.firmware[a..][..b];
  }

  // ----- one table -----

  /** Lines 464-481: a frame is zeroed and linked in as table `Child(k, i)`. */
  ghost function WithTable(m: Machine, k: Key, i: nat): (w: Machine)
    requires Fresh(m) && m.firmware != [] && k in m.v.tab && i < WORDS
  {
    var f := m.firmware[0];
    assert f in m.firmware;
    m.(v := Linked(Grown(m.v, f), k, i, f), firmware := m.firmware[1..], count := m.count + 1)
  }

  lemma {:induction false} WithTableKeeps(m: Machine, k: Key, i: nat)
    requires Fresh(m) && m.firmware != [] && k in m.v.tab && k.depth < 3 && i < WORDS && Child(k, i) !in m.v.tab
    ensures var w := WithTable(m, k, i);
      Fresh(w) && Took(m, w, 1) && SameLeaves(m.v, w.v) && Mapping(w.v) == Mapping(m.v)
  {
    var f, w := m.firmware[0], WithTable(m, k, i);
    SpareRest(m.firmware, m.v.used, m.ram, f);
    GrownKeeps(m.v, f);
    LinkedKeeps(Grown(m.v, f), k, i, f);
    SameLeavesMapping(m.v, w.v);
    TookOne(m, w, f);
  }

  lemma {:induction false} SpareRest(firmware: seq<nat>, used: seq<bool>, ram: map<nat, seq<Byte>>, f: nat)
    requires Spare(firmware, used, ram) && firmware != [] && firmware[0] == f
    ensures 0 < f < |used| && !used[f] && Spare(firmware[1..], used[f := true], ram) && f !in firmware[1..]
  {
    assert firmware[0] in firmware;
    forall g | g in firmware[1..] ensures g in firmware && g != f { }
  }

  lemma {:induction false} TookOne(m: Machine, w: Machine, f: nat)
    requires m.firmware != [] && f == m.firmware[0] < |m.v.used| && w.v.used == m.v.used[f := true]
    requires w.firmware == m.firmware[1..] && w.count == m.count + 1
    ensures Took(m, w, 1)
  {
    assert m.firmware[..1] == [f];
  }

  // ----- the tables of a page -----

  /** `w` is `m` once the tables `keys` are there, those that were missing newly created. */
  ghost predicate Tabled(m: Machine, w: Machine, keys: set<Key>) {
    w.v.tab.Keys == m.v.tab.Keys + keys && Took(m, w, Missing(m.v.tab, keys)) && w.ram == m.ram
  }

  lemma {:induction false} TabledTrans(m: Machine, u: Machine, w: Machine, a: set<Key>, b: set<Key>)
    requires Tabled(m, u, a) && Tabled(u, w, b)
    ensures Tabled(m, w, a + b)
  {
    var x, y := Missing(m.v.tab, a), Missing(u.v.tab, b);
    MissingMore(m.v.tab, u.v.tab, a, b);
    UnionAssoc(m.v.tab.Keys, a, b);
    TookTrans(m, u, w, x, y);
  }

  lemma {:induction false} TabledOne(m: Machine, k: Key, i: nat)
    requires Fresh(m) && m.firmware != [] && k in m.v.tab && k.depth < 3 && i < WORDS && Child(k, i) !in m.v.tab
    ensures Tabled(m, WithTable(m, k, i), {Child(k, i)})
  {
    WithTableKeeps(m, k, i);
    assert {Child(k, i)} - m.v.tab.Keys == {Child(k, i)};
  }

  lemma {:induction false} TabledNone(m: Machine, keys: set<Key>)
    requires keys <= m.v.tab.Keys
    ensures Tabled(m, m, keys)
  {
    assert keys - m.v.tab.Keys == {};
  }

  // ----- what a stretch of the loader's work costs -----

  /** Frames for `frames` pages and for the tables of `keys` that are missing. */
  ghost function Cost(m: Machine, frames: nat, keys: set<Key>): nat { frames + Missing(m.v.tab, keys) }

  /** That is what was taken from `m` to `w`, and those are the tables that came. */
  ghost predicate Grew(m: Machine, w: Machine, frames: nat, keys: set<Key>) {
    w.v.tab.Keys == m.v.tab.Keys + keys && Took(m, w, Cost(m, frames, keys))
  }

  lemma {:induction false} CostMore(m: Machine, u: Machine, a: nat, ka: set<Key>, b: nat, kb: set<Key>)
    requires Grew(m, u, a, ka)
    ensures Cost(m, a + b, ka + kb) == Cost(m, a, ka) + Cost(u, b, kb)
    ensures |u.firmware| == |m.firmware| - Cost(m, a, ka)
  {
    MissingMore(m.v.tab, u.v.tab, ka, kb);
  }

  lemma {:induction false} GrewTrans(m: Machine, u: Machine, w: Machine, a: nat, ka: set<Key>, b: nat, kb: set<Key>)
    requires Grew(m, u, a, ka) && Grew(u, w, b, kb)
    ensures Grew(m, w, a + b, ka + kb)
  {
    CostMore(m, u, a, ka, b, kb);
    UnionAssoc(m.v.tab.Keys, ka, kb);
    TookTrans(m, u, w, Cost(m, a, ka), Cost(u, b, kb));
  }

  lemma {:induction false} GrewNone(m: Machine)
    ensures Grew(m, m, 0, {})
  {
    assert {} - m.v.tab.Keys == {};
  }

  lemma {:induction false} CostMono(m: Machine, a: nat, ka: set<Key>, b: nat, kb: set<Key>)
    requires a <= b && ka <= kb
    ensures Cost(m, a, ka) <= Cost(m, b, kb)
  {
    KeysSplit(m.v.tab.Keys, ka, kb);
    assert ka + kb == kb;
  }

  /** Where the firmware runs out, more tables are missing than it had frames. */
  lemma {:induction false} RunsOut(m: Machine, w: Machine, a: set<Key>, k: Key, all: set<Key>)
    requires Tabled(m, w, a) && w.firmware == [] && k !in w.v.tab && a <= all && k in all
    ensures Missing(m.v.tab, all) > |m.firmware|
  {
    MissingMore(m.v.tab, w.v.tab, a, all);
    assert a + all == all;
    assert k in all - w.v.tab.Keys;
  }

  lemma {:induction false} LeavesTrans(u: View, v: View, w: View)
    requires Framed(u) && Framed(v) && Framed(w) && SameLeaves(u, v) && SameLeaves(v, w)
    ensures SameLeaves(u, w)
  {
  }

  // ----- a page's entry -----

  /** Lines 514-522: the fields are set one by one, the others stay. */
  function LeafOver(e: Entry, frame: nat, flags: nat): Entry {
    e.(present := true, writeable := V.Flag(flags, 0x1), user := V.Flag(flags, 0x2), writeThrough := V.Flag(flags, 0x4),
       noCache := V.Flag(flags, 0x8), global := V.Flag(flags, 0x20), nx := V.Flag(flags, 0x40),
       frame := frame % FRAME_LIMIT)
  }

  /** `w` is `m` with page `page` bound to `frame` as well. */
  ghost predicate Bound(m: Machine, w: Machine, page: nat, frame: nat, flags: nat)
    requires Framed(m.v) && Framed(w.v)
  {
    Mapping(w.v) == Mapping(m.v)[page := LeafOver(Leaf(m.v, page), frame, flags)]
  }

  class Boot {
    var mem: Memory
    var used: seq<bool>          // the frame bitmap
    var firmware: seq<nat>       // the frames AllocatePages has left
    var count: nat               // memory_physical_used_frames
    var ram: map<nat, seq<Byte>>
    const root: nat              // the frame of the PML4
    ghost var tab: map<Key, nat>

    constructor (mem: Memory, used: seq<bool>, firmware: seq<nat>, ram: map<nat, seq<Byte>>, root: nat, count: nat,
        ghost tab: map<Key, nat>)
      ensures St() == Machine(View(tab, mem, used, root), firmware, count, ram)
    {
      this.mem, this.used, this.firmware, this.count := mem, used, firmware, count;
      this.ram, this.root, this.tab := ram, root, tab;
    }

    ghost function St(): Machine
      reads this
    {
      Machine(View(tab, mem, used, root), firmware, count, ram)
    }

    /** `walk_and_crate_next_table`: the loader halts when the firmware has no page left. */
    method Walk(table: nat, index: nat, ghost k: Key) returns (next: nat, ok: bool)
      requires Fresh(St()) && k in tab && tab[k] == table && k.depth < 3 && index < WORDS
      modifies this`mem, this`used, this`firmware, this`count, this`tab
      ensures ok <==> Child(k, index) in old(tab) || old(firmware) != []
      ensures ok ==>
        && Fresh(St()) && Tabled(old(St()), St(), {Child(k, index)}) && SameLeaves(old(St()).v, St().v)
        && tab[Child(k, index)] == next
    {
      ghost var m := St();
      assert EntryOk(m.v, k, index);
      if mem[table][index].present {
        TabledNone(m, {Child(k, index)});
        return mem[table][index].frame, true;
      }
      if firmware == [] { return 0, false; }
      WithTableKeeps(m, k, index);
      TabledOne(m, k, index);
      next := Create(table, index, k);
      ok := true;
    }

    /** Lines 465-480. */
    method Create(table: nat, index: nat, ghost k: Key) returns (next: nat)
      requires Fresh(St()) && k in tab && tab[k] == table && index < WORDS && firmware != []
      modifies this`mem, this`used, this`firmware, this`count, this`tab
      ensures St() == WithTable(old(St()), k, index) && next == old(firmware[0])
    {
      next := firmware[0];
      assert next in firmware;
      assert seq(WORDS, _ => ZERO) == ZeroFrame();
      mem := mem[next := seq(WORDS, _ => ZERO)];
      var e := mem[table][index];
      e := e.(present := true, writeable := true, user := true, frame := next % FRAME_LIMIT);
      mem := mem[table := mem[table][index := e]];
      used, count, firmware := used[next := true], count + 1, firmware[1..];
      tab := tab[Child(k, index) := next];
    }

    /** A step of the descent: since `m` the tables `done` were made sure of, and `all` are wanted. */
    method Descend(ghost m: Machine, table: nat, index: nat, ghost k: Key, ghost q: Key, ghost done: set<Key>,
        ghost all: set<Key>)
      returns (next: nat, ok: bool)
      requires Underway(m, St(), done) && k in tab && tab[k] == table && k.depth < 3 && index < WORDS
      requires q == Child(k, index) && done + {q} <= all
      modifies this`mem, this`used, this`firmware, this`count, this`tab
      ensures !ok ==> Missing(m.v.tab, all) > |m.firmware|
      ensures ok ==> Underway(m, St(), done + {q}) && q in tab && tab[q] == next
    {
      ghost var u := St();
      next, ok := Walk(table, index, k);
      if ok {
        TabledTrans(m, u, St(), done, {q});
        LeavesTrans(m.v, u.v, St().v);
      } else {
        RunsOut(m, u, done, q, all);
      }
    }

    /** Lines 488-493, 510: down to the page table of an address. */
    method PathTo(vaddr: nat) returns (pt: nat, ok: bool)
      requires Fresh(St())
      modifies this`mem, this`used, this`firmware, this`count, this`tab
      ensures ok <==> Missing(old(tab), PathKeys(V.PageOf(vaddr))) <= |old(firmware)|
      ensures ok ==>
        Underway(old(St()), St(), PathKeys(V.PageOf(vaddr))) && TableOf(V.PageOf(vaddr), 3) in tab &&
          tab[TableOf(V.PageOf(vaddr), 3)] == pt
    {
      ghost var page, m := V.PageOf(vaddr), St();
      V.Indices(vaddr);
      ghost var root', one, two, three := OnPath(page);
      ghost var all := PathKeys(page);
      TabledNone(m, {});
      var pdpt, pd;
      pdpt, ok := Descend(m, root, vaddr / 0x80_0000_0000 % WORDS, root', one, {}, all);
      if !ok { return 0, false; }
      pd, ok := Descend(m, pdpt, vaddr / 0x4000_0000 % WORDS, one, two, {} + {one}, all);
      if !ok { return 0, false; }
      pt, ok := Descend(m, pd, vaddr / 0x20_0000 % WORDS, two, three, {} + {one} + {two}, all);
    }

    /** `map_vaddr_to_paddr` for a 4 KiB page: it takes one frame for every table that was missing, and halts
    exactly when the firmware has fewer left. */
    method MapFrame(vaddr: nat, frame: nat, flags: nat) returns (ok: bool)
      requires Fresh(St()) && frame < FRAME_LIMIT && frame !in firmware && !V.Flag(flags, 0x10)
      modifies this`mem, this`used, this`firmware, this`count, this`tab
      ensures ok <==> Missing(old(tab), PathKeys(V.PageOf(vaddr))) <= |old(firmware)|
      ensures ok ==> Mapped(old(St()), St(), V.PageOf(vaddr), frame, flags)
    {
      ghost var m := St();
      var pt;
      pt, ok := PathTo(vaddr);
      if !ok { return; }
      StillSpare(m, St(), Missing(m.v.tab, PathKeys(V.PageOf(vaddr))), frame);
      LeafMaps(m, St(), V.PageOf(vaddr), frame, flags, LeafOver(Leaf(St().v, V.PageOf(vaddr)), frame, flags));
      SetLeaf(pt, vaddr, frame, flags);
    }

    /** Lines 512-522. */
    method SetLeaf(pt: nat, vaddr: nat, frame: nat, flags: nat)
      requires Framed(St().v) && TableOf(V.PageOf(vaddr), 3) in tab && tab[TableOf(V.PageOf(vaddr), 3)] == pt
      modifies this`mem
      ensures var (m, page) := (old(St()), V.PageOf(vaddr));
        St() == m.(v := WithLeaf(m.v, page, LeafOver(Leaf(m.v, page), frame, flags)))
    {
      V.Indices(vaddr);
      var i := vaddr / 0x1000 % WORDS;
      mem := mem[pt := mem[pt][i := LeafOver(mem[pt][i], frame, flags)]];
    }
  }

  /** `w` is `m` with page `page` bound to `frame`, and the tables that needed. */
  ghost predicate Mapped(m: Machine, w: Machine, page: nat, frame: nat, flags: nat) {
    Fresh(m) && Fresh(w) && Tabled(m, w, PathKeys(page)) && Bound(m, w, page, frame, flags)
  }

  lemma {:induction false} StillSpare(m: Machine, w: Machine, n: nat, frame: nat)
    requires Took(m, w, n) && frame !in m.firmware
    ensures frame !in w.firmware
  {
  }

  lemma {:induction false} OverFrame(e: Entry, frame: nat, flags: nat)
    requires frame < FRAME_LIMIT
    ensures LeafOver(e, frame, flags).frame == frame && LeafOver(e, frame, flags).present
  {
  }

  lemma {:induction false} LeafMaps(m: Machine, u: Machine, page: nat, frame: nat, flags: nat, e: Entry)
    requires Underway(m, u, PathKeys(page)) && page < PAGES && frame < FRAME_LIMIT && frame !in u.firmware
    requires e == LeafOver(Leaf(u.v, page), frame, flags)
    ensures TableOf(page, 3) in u.v.tab && Mapped(m, u.(v := WithLeaf(u.v, page, e)), page, frame, flags)
  {
    assert TableOf(page, 3) in PathKeys(page);
    OverFrame(Leaf(u.v, page), frame, flags);
    MappingStored(u.v, page, e);
    SameLeavesMapping(m.v, u.v);
    UnmappedMore(u.firmware, Mapping(u.v), page, e);
  }

  lemma {:induction false} UnmappedMore(firmware: seq<nat>, bound: map<nat, Entry>, page: nat, e: Entry)
    requires Unmapped(firmware, bound) && e.frame !in firmware
    ensures Unmapped(firmware, bound[page := e])
  {
  }

  /** Since `m` the tables `done` were made sure of, and nothing else happened. */
  ghost predicate Underway(m: Machine, w: Machine, done: set<Key>) {
    Fresh(m) && Fresh(w) && Tabled(m, w, done) && SameLeaves(m.v, w.v)
  }
}
