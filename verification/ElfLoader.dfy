/** The boot loader's ELF segment loop (`bootloader/efi.c`): System V gABI, chapter 5, "Program Header". */
module ElfLoader {
  import opened Arith
  import opened Seqs
  import opened PageEntry
  import opened PageTree
  import opened TablePath
  import opened BootTables
  import V = Vmm

  const PT_LOAD: nat := 1

  /** `Elf64_Phdr`, the fields the loader looks at. */
  datatype Phdr = Phdr(kind: nat, flags: nat, offset: nat, vaddr: nat, filesz: nat, memsz: nat)

  /** What the segment is to hold: its file bytes, then zeros. */
  function Content(ph: Phdr, file: seq<Byte>, k: nat): Byte
    requires ph.offset + ph.filesz <= |file|
  {
    if k < ph.filesz then file[ph.offset + k] else 0
  }

  ghost function PageContent(ph: Phdr, file: seq<Byte>, j: nat): (s: seq<Byte>)
    requires ph.offset + ph.filesz <= |file|
    ensures |s| == PAGE && forall t: nat :: t < PAGE ==> s[t] == Content(ph, file, j * PAGE + t)
  {
    seq<Byte>(PAGE, t requires 0 <= t < PAGE => Content(ph, file, j * PAGE + t))
  }

  /** Pages the loop maps: one for every started page of memory. */
  function PageCount(ph: Phdr): (n: nat)
    ensures ph.memsz <= n * PAGE < ph.memsz + PAGE
  {
    (ph.memsz + PAGE - 1) / PAGE
  }

  function FirstPage(ph: Phdr): nat { V.PageOf(ph.vaddr) }

  /** The header describes bytes of the file and a stretch of the address space. */
  predicate Sane(ph: Phdr, file: seq<Byte>) {
    ph.offset + ph.filesz <= |file| && ph.vaddr + ph.memsz + PAGE <= U64 && PageCount(ph) < PAGES
  }

  /** Lines 249-251: PT_GLOBAL, and the segment's rights. */
  function FlagsOf(ph: Phdr): nat { 0x20 + ph.flags / 2 % 2 + 0x40 * (1 - ph.flags % 2) }

  /** The rights are those of the segment: writable with PF_W, executable with PF_X, never the user's. */
  lemma {:induction false} Rights(ph: Phdr, e: Entry, frame: nat)
    requires frame < FRAME_LIMIT
    ensures var r := LeafOver(e, frame, FlagsOf(ph));
      && r.present && r.frame == frame && r.writeable == (ph.flags / 2 % 2 == 1) && r.nx == (ph.flags % 2 == 0)
      && r.global && !r.user && !r.writeThrough && !r.noCache
    ensures !V.Flag(FlagsOf(ph), 0x10)
  {
    var w, x := ph.flags / 2 % 2, 1 - ph.flags % 2;
    assert FlagsOf(ph) == 0x20 + w + 0x40 * x;
  }

  /** The address space as programs see it, and the frames the firmware has left. */
  datatype Image = Image(bound: map<nat, Entry>, ram: map<nat, seq<Byte>>, firmware: seq<nat>)

  ghost function ImageOf(m: Machine): Image
    requires Framed(m.v)
  {
    Image(Mapping(m.v), m.ram, m.firmware)
  }

  /** What a load through the mapping finds at an address. */
  ghost function ByteAt(a: Image, addr: nat): Byte {
    var p := V.PageOf(addr);
    if p in a.bound && a.bound[p].frame in a.ram && |a.ram[a.bound[p].frame]| == PAGE
    then a.ram[a.bound[p].frame][addr % PAGE] else 0
  }

  ghost predicate HasRights(ph: Phdr, e: Entry) {
    e.writeable == (ph.flags / 2 % 2 == 1) && e.nx == (ph.flags % 2 == 0) && e.global && !e.user && !e.writeThrough &&
      !e.noCache
  }

  /** Page `j` of the segment is bound to a frame with its contents and the segment's rights. */
  ghost predicate PageLoaded(a: Image, ph: Phdr, file: seq<Byte>, j: nat)
    requires ph.offset + ph.filesz <= |file|
  {
    var p := V.PageAt(FirstPage(ph), j);
    p in a.bound && a.bound[p].frame in a.ram && a.ram[a.bound[p].frame] == PageContent(ph, file, j) &&
      HasRights(ph, a.bound[p])
  }

  ghost predicate FirstLoaded(a: Image, ph: Phdr, file: seq<Byte>, n: nat)
    requires ph.offset + ph.filesz <= |file|
  {
    forall j: nat :: j < n ==> PageLoaded(a, ph, file, j)
  }

  /** Nothing was bound or stored except for these pages: no other page is bound anew, and none that was
  bound, and no frame in use, is changed. */
  ghost predicate Beside(a: Image, b: Image, pages: set<nat>) {
    && b.bound.Keys <= a.bound.Keys + pages && b.ram.Keys == a.ram.Keys
    && (forall p :: p in a.bound && p !in pages ==> p in b.bound && b.bound[p] == a.bound[p])
    && (forall f :: f in a.ram && f !in a.firmware ==> f in b.ram && b.ram[f] == a.ram[f])
  }

  // ----- one page -----

  function Copied(ph: Phdr, j: nat): nat { if j * PAGE < ph.filesz then j * PAGE else ph.filesz }

  lemma {:induction false} PageIs(ph: Phdr, file: seq<Byte>, j: nat, size: nat, page: seq<Byte>)
    requires ph.offset + ph.filesz <= |file| && |page| == PAGE && size <= PAGE
    requires var done := Copied(ph, j);
      && size == (if ph.filesz - done >= PAGE then PAGE else ph.filesz - done)
      && (forall t: nat :: t < size ==> page[t] == file[ph.offset + done + t])
      && (forall t: nat :: size <= t < PAGE ==> page[t] == 0)
    ensures page == PageContent(ph, file, j) && Copied(ph, j) + size == Copied(ph, j + 1)
  {
    var s := PageContent(ph, file, j);
    forall t: nat | t < PAGE ensures page[t] == s[t] {
      assert s[t] == Content(ph, file, j * PAGE + t);
    }
  }

  /** A frame leaves the firmware's stock and is filled. */
  ghost function WithBytes(m: Machine, bytes: seq<Byte>): Machine
    requires m.firmware != []
  {
    m.(firmware := m.firmware[1..], ram := m.ram[m.firmware[0] := bytes])
  }

  lemma {:induction false} WithBytesFresh(m: Machine, bytes: seq<Byte>)
    requires Fresh(m) && m.firmware != [] && |bytes| == PAGE
    ensures Fresh(WithBytes(m, bytes)) && m.firmware[0] !in m.firmware[1..] && 0 < m.firmware[0] < |m.v.used| &&
      !m.v.used[m.firmware[0]]
  {
    SpareRest(m.firmware, m.v.used, m.ram, m.firmware[0]);
    assert forall f :: f in m.firmware[1..] ==> f in m.firmware;
  }

  /** It is marked and counted. */
  ghost function Marked(m: Machine, f: nat): Machine
    requires f < |m.v.used|
  {
    m.(v := m.v.(used := m.v.used[f := true]), count := m.count + 1)
  }

  lemma {:induction false} MarkedFresh(m: Machine, f: nat)
    requires Fresh(m) && f < |m.v.used| && f !in m.firmware
    ensures Fresh(Marked(m, f)) && Mapping(Marked(m, f).v) == Mapping(m.v)
  {
    var v, w := m.v, m.v.(used := m.v.used[f := true]);
    assert Framed(w);
    forall k, i: nat | k in w.tab && k.depth < 3 && i < WORDS ensures EntryOk(w, k, i) { assert EntryOk(v, k, i); }
    forall p: nat | p < PAGES ensures Leaf(v, p) == Leaf(w, p) { }
    SameLeavesMapping(v, w);
  }

  /** What one page of the loop comes to: one frame and the missing tables. */
  lemma {:induction false} PageGrew(m: Machine, u: Machine, page: nat, bytes: seq<Byte>, f: nat)
    requires m.firmware != [] && f == m.firmware[0] && f < |m.v.used| && Tabled(WithBytes(m, bytes), u, PathKeys(page))
    ensures f < |u.v.used| && Grew(m, Marked(u, f), 1, PathKeys(page))
  {
    var n := Missing(m.v.tab, PathKeys(page));
    OneMore(m.firmware, n);
    MarkedTook(m, u, f, bytes, n);
  }

  lemma {:induction false} OneMore(s: seq<nat>, n: nat)
    requires 1 + n <= |s|
    ensures s[1..][n..] == s[1 + n..] && s[..1 + n] == [s[0]] + s[1..][..n]
  {
  }

  lemma {:induction false} MarkedTook(m: Machine, u: Machine, f: nat, bytes: seq<Byte>, n: nat)
    requires m.firmware != [] && f == m.firmware[0] && f < |m.v.used| && Took(WithBytes(m, bytes), u, n)
    requires 1 + n <= |m.firmware| ==>
      m.firmware[1..][n..] == m.firmware[1 + n..] && m.firmware[..1 + n] == [f] + m.firmware[1..][..n]
    ensures f < |u.v.used| && Took(m, Marked(u, f), 1 + n)
  {
  }

  /** What holds after page `j`, of segment `ph`, has been loaded. */
  ghost predicate PageStep(m: Machine, w: Machine, ph: Phdr, file: seq<Byte>, j: nat) {
    && ph.offset + ph.filesz <= |file| && Fresh(m) && Fresh(w)
    && Grew(m, w, 1, PathKeys(V.PageAt(FirstPage(ph), j)))
    && Beside(ImageOf(m), ImageOf(w), {V.PageAt(FirstPage(ph), j)}) && PageLoaded(ImageOf(w), ph, file, j)
  }

  lemma {:induction false} PageSteps(m: Machine, u: Machine, ph: Phdr, file: seq<Byte>, j: nat, bytes: seq<Byte>)
    requires Fresh(m) && m.firmware != [] && ph.offset + ph.filesz <= |file| && bytes == PageContent(ph, file, j)
    requires Mapped(WithBytes(m, bytes), u, V.PageAt(FirstPage(ph), j), m.firmware[0], FlagsOf(ph))
    ensures m.firmware[0] < |u.v.used| && PageStep(m, Marked(u, m.firmware[0]), ph, file, j)
  {
    var f, p := m.firmware[0], V.PageAt(FirstPage(ph), j);
    WithBytesFresh(m, bytes);
    PageGrew(m, u, p, bytes, f);
    StillSpare(WithBytes(m, bytes), u, Missing(m.v.tab, PathKeys(p)), f);
    MarkedFresh(u, f);
    assert f in m.firmware;
    BoundImage(ImageOf(m), ImageOf(Marked(u, f)), ph, file, j, f, Leaf(m.v, p));
  }

  lemma {:induction false} BoundImage(a: Image, b: Image, ph: Phdr, file: seq<Byte>, j: nat, f: nat, e: Entry)
    requires ph.offset + ph.filesz <= |file| && f in a.firmware && f in a.ram && f < FRAME_LIMIT
    requires b.bound == a.bound[V.PageAt(FirstPage(ph), j) := LeafOver(e, f, FlagsOf(ph))]
    requires b.ram == a.ram[f := PageContent(ph, file, j)]
    ensures Beside(a, b, {V.PageAt(FirstPage(ph), j)}) && PageLoaded(b, ph, file, j)
  {
    Rights(ph, e, f);
  }

  /** Lines 239-243: part of the file, then zeros up to the end of the page. */
  method CopyIn(b: Boot, frame: nat, file: seq<Byte>, from: nat, size: nat)
    requires frame in b.ram && |b.ram[frame]| == PAGE && size <= PAGE && from + size <= |file|
    modifies b`ram
    ensures frame in b.ram && |b.ram[frame]| == PAGE && b.ram == old(b.ram)[frame := b.ram[frame]]
    ensures forall t: nat :: t < size ==> b.ram[frame][t] == file[from + t]
    ensures forall t: nat :: size <= t < PAGE ==> b.ram[frame][t] == 0
  {
    b.ram := b.ram[frame := file[from..from + size] + b.ram[frame][size..]];
    if size < 4096 {
      b.ram := b.ram[frame := b.ram[frame][..size] + seq(4096 - size, _ => 0)];
    }
  }

  /** Lines 230-243: a frame for page `j`, with its contents. `done` is what has been copied of the file. */
  method FillFrame(b: Boot, ph: Phdr, file: seq<Byte>, done: nat, ghost j: nat) returns (frame: nat, done': nat)
    requires Sane(ph, file) && Fresh(b.St()) && b.firmware != [] && done == Copied(ph, j)
    modifies b`ram, b`firmware
    ensures done' == Copied(ph, j + 1) && frame == old(b.firmware[0])
    ensures b.St() == WithBytes(old(b.St()), PageContent(ph, file, j))
  {
    frame := b.firmware[0];
    assert frame in b.firmware;
    b.firmware := b.firmware[1..];
    var size := if ph.filesz - done >= 4096 then 4096 else ph.filesz - done;
    CopyIn(b, frame, file, ph.offset + done, size);
    PageIs(ph, file, j, size, b.ram[frame]);
    done' := done + size;
  }

  /** Lines 253-255. */
  method Mark(b: Boot, frame: nat)
    requires frame < |b.used|
    modifies b`used, b`count
    ensures b.St() == Marked(old(b.St()), frame)
  {
    b.used, b.count := b.used[frame := true], b.count + 1;
  }

  /** Lines 247-255, once the frame is filled. */
  method Place(b: Boot, ph: Phdr, file: seq<Byte>, vaddr: nat, frame: nat, ghost m: Machine, ghost j: nat)
      returns (ok: bool)
    requires ph.offset + ph.filesz <= |file| && Fresh(m) && m.firmware != [] && frame == m.firmware[0]
    requires b.St() == WithBytes(m, PageContent(ph, file, j)) && V.PageOf(vaddr) == V.PageAt(FirstPage(ph), j)
    modifies b
    ensures ok <==> Cost(m, 1, PathKeys(V.PageAt(FirstPage(ph), j))) <= |m.firmware|
    ensures ok ==> PageStep(m, b.St(), ph, file, j)
  {
    WithBytesFresh(m, PageContent(ph, file, j));
    Rights(ph, ZERO, frame);
    ok := b.MapFrame(vaddr, frame, FlagsOf(ph));
    if ok {
      PageSteps(m, b.St(), ph, file, j, PageContent(ph, file, j));
      Mark(b, frame);
    }
  }

  /** Lines 230-255: one page of a segment. The loader halts exactly when the firmware has not enough frames
  for the page and the tables it is missing. */
  method LoadPage(b: Boot, ph: Phdr, file: seq<Byte>, vaddr: nat, done: nat, ghost j: nat)
      returns (done': nat, ok: bool)
    requires Sane(ph, file) && Fresh(b.St()) && done == Copied(ph, j) && V.PageOf(vaddr) == V.PageAt(FirstPage(ph), j)
    modifies b
    ensures ok <==> Cost(old(b.St()), 1, PathKeys(V.PageAt(FirstPage(ph), j))) <= |old(b.firmware)|
    ensures ok ==> done' == Copied(ph, j + 1) && PageStep(old(b.St()), b.St(), ph, file, j)
  {
    if b.firmware == [] { return 0, false; }
    ghost var m := b.St();
    var frame;
    frame, done' := FillFrame(b, ph, file, done, j);
    ok := Place(b, ph, file, vaddr, frame, m, j);
  }

  // ----- a segment -----

  /** Where the loop stands before page `j`. */
  ghost predicate AtPage(ph: Phdr, j: nat, vaddr: nat, done: nat) {
    && j <= PageCount(ph) && vaddr == ph.vaddr + j * PAGE && (vaddr < ph.vaddr + ph.memsz <==> j < PageCount(ph))
    && V.PageOf(vaddr) == V.PageAt(FirstPage(ph), j) && done == Copied(ph, j)
  }

  lemma {:induction false} AtStart(ph: Phdr)
    ensures AtPage(ph, 0, ph.vaddr, 0)
  {
    V.PageAtStart(ph.vaddr);
  }

  lemma {:induction false} AtNext(ph: Phdr, j: nat, vaddr: nat)
    requires ph.vaddr + ph.memsz + PAGE <= U64 && AtPage(ph, j, vaddr, Copied(ph, j)) && j < PageCount(ph)
    ensures AtPage(ph, j + 1, vaddr + PAGE, Copied(ph, j + 1))
  {
    V.PageStep(vaddr, FirstPage(ph), j);
    assert (vaddr + PAGE) % U64 == vaddr + PAGE;
  }

  /** The first `j` pages are loaded. */
  ghost predicate Partly(m0: Machine, m: Machine, ph: Phdr, file: seq<Byte>, j: nat) {
    && ph.offset + ph.filesz <= |file| && Fresh(m0) && Fresh(m)
    && Grew(m0, m, j, V.TablesFrom(FirstPage(ph), j))
    && Beside(ImageOf(m0), ImageOf(m), V.PagesFrom(FirstPage(ph), j)) && FirstLoaded(ImageOf(m), ph, file, j)
  }

  lemma {:induction false} PartlyNone(m: Machine, ph: Phdr, file: seq<Byte>)
    requires Fresh(m) && ph.offset + ph.filesz <= |file|
    ensures Partly(m, m, ph, file, 0)
  {
    GrewNone(m);
  }

  lemma {:induction false} PagesApart(first: nat, i: nat, j: nat)
    requires i < j < i + PAGES
    ensures V.PageAt(first, i) != V.PageAt(first, j)
  {
  }

  /** A page loaded earlier is not disturbed. */
  lemma {:induction false} StillLoaded(a: Image, b: Image, ph: Phdr, file: seq<Byte>, i: nat, pages: set<nat>)
    requires ph.offset + ph.filesz <= |file| && Unmapped(a.firmware, a.bound) && PageLoaded(a, ph, file, i)
    requires Beside(a, b, pages) && V.PageAt(FirstPage(ph), i) !in pages
    ensures PageLoaded(b, ph, file, i)
  {
  }

  lemma {:induction false} BesideTrans(a: Image, b: Image, c: Image, s: set<nat>, t: set<nat>)
    requires Beside(a, b, s) && Beside(b, c, t) && forall f :: f in b.firmware ==> f in a.firmware
    ensures Beside(a, c, s + t)
  {
  }

  lemma {:induction false} EarlierLoaded(a: Image, b: Image, ph: Phdr, file: seq<Byte>, j: nat)
    requires ph.offset + ph.filesz <= |file| && Unmapped(a.firmware, a.bound) && j < PAGES
    requires FirstLoaded(a, ph, file, j) && Beside(a, b, {V.PageAt(FirstPage(ph), j)}) && PageLoaded(b, ph, file, j)
    ensures FirstLoaded(b, ph, file, j + 1)
  {
    var first := FirstPage(ph);
    forall i: nat | i < j + 1 ensures PageLoaded(b, ph, file, i) {
      if i < j {
        PagesApart(first, i, j);
        StillLoaded(a, b, ph, file, i, {V.PageAt(first, j)});
      }
    }
  }

  lemma {:induction false} PartlyNext(m0: Machine, m: Machine, w: Machine, ph: Phdr, file: seq<Byte>, j: nat)
    requires Partly(m0, m, ph, file, j) && PageStep(m, w, ph, file, j) && j < PAGES
    ensures Partly(m0, w, ph, file, j + 1)
  {
    var first := FirstPage(ph);
    var p, a0, a, b := V.PageAt(first, j), ImageOf(m0), ImageOf(m), ImageOf(w);
    EarlierLoaded(a, b, ph, file, j);
    GrewTrans(m0, m, w, j, V.TablesFrom(first, j), 1, PathKeys(p));
    V.TablesNext(first, j);
    StockOnly(m0, m, Cost(m0, j, V.TablesFrom(first, j)));
    BesideTrans(a0, a, b, V.PagesFrom(first, j), {p});
    V.PagesFromNext(first, j);
  }

  lemma {:induction false} StockOnly(m: Machine, w: Machine, n: nat)
    requires Took(m, w, n)
    ensures forall f :: f in w.firmware ==> f in m.firmware
  {
  }

  /** Where page `j` does not go through, neither does the segment. */
  lemma {:induction false} PageCosts(m0: Machine, m: Machine, ph: Phdr, j: nat, n: nat)
    requires Grew(m0, m, j, V.TablesFrom(FirstPage(ph), j)) && j < n
    ensures Cost(m, 1, PathKeys(V.PageAt(FirstPage(ph), j))) > |m.firmware| ==>
            Cost(m0, n, V.TablesFrom(FirstPage(ph), n)) > |m0.firmware|
    ensures Cost(m, 1, PathKeys(V.PageAt(FirstPage(ph), j))) <= |m.firmware| ==>
            Cost(m0, j + 1, V.TablesFrom(FirstPage(ph), j + 1)) <= |m0.firmware|
  {
    var first := FirstPage(ph);
    CostMore(m0, m, j, V.TablesFrom(first, j), 1, PathKeys(V.PageAt(first, j)));
    V.TablesNext(first, j);
    V.TablesMono(first, j + 1, n);
    CostMono(m0, j + 1, V.TablesFrom(first, j + 1), n, V.TablesFrom(first, n));
  }

  /** One round of the loop. */
  method LoadNext(b: Boot, ph: Phdr, file: seq<Byte>, vaddr: nat, done: nat, ghost m0: Machine, ghost j: nat)
    returns (vaddr': nat, done': nat, ok: bool)
    requires Sane(ph, file) && j < PageCount(ph) && AtPage(ph, j, vaddr, done) && Partly(m0, b.St(), ph, file, j)
    modifies b
    ensures !ok ==> Cost(m0, PageCount(ph), V.TablesFrom(FirstPage(ph), PageCount(ph))) > |m0.firmware|
    ensures ok ==> AtPage(ph, j + 1, vaddr', done') && Partly(m0, b.St(), ph, file, j + 1)
  {
    ghost var m := b.St();
    vaddr' := vaddr + 0x1000;
    PageCosts(m0, m, ph, j, PageCount(ph));
    done', ok := LoadPage(b, ph, file, vaddr, done, j);
    if ok {
      AtNext(ph, j, vaddr);
      PartlyNext(m0, m, b.St(), ph, file, j);
    }
  }

  /** Lines 229-256: a whole segment. Its pages are bound to frames with its contents and rights; the frames
  taken, marked and counted are one for each page and one for each table that was missing, and the loader
  halts exactly when the firmware has fewer. */
  method LoadSegment(b: Boot, ph: Phdr, file: seq<Byte>) returns (ok: bool)
    requires Sane(ph, file) && Fresh(b.St())
    modifies b
    ensures ok <==> Cost(old(b.St()), PageCount(ph), V.TablesFrom(FirstPage(ph), PageCount(ph))) <= |old(b.firmware)|
    ensures ok ==> Partly(old(b.St()), b.St(), ph, file, PageCount(ph))
  {
    var done: nat, vaddr: nat, j: nat := 0, ph.vaddr, 0;
    ghost var m0 := b.St();
    AtStart(ph);
    PartlyNone(m0, ph, file);
    while vaddr < ph.vaddr + ph.memsz
      invariant AtPage(ph, j, vaddr, done)
      invariant Partly(m0, b.St(), ph, file, j)
      decreases PageCount(ph) - j
    {
      vaddr, done, ok := LoadNext(b, ph, file, vaddr, done, m0, j);
      if !ok { return; }
      j := j + 1;
    }
    ok := true;
  }

  // ----- every segment -----

  function FramesFor(phs: seq<Phdr>, n: nat): nat
    requires n <= |phs|
  {
    if n == 0 then 0 else FramesFor(phs, n - 1) + if phs[n - 1].kind == PT_LOAD then PageCount(phs[n - 1]) else 0
  }

  /** The pages of the loadable segments among the first `n`. */
  ghost function PagesFor(phs: seq<Phdr>, n: nat): set<nat>
    requires n <= |phs|
  {
    if n == 0 then {} else PagesFor(phs, n - 1) + if phs[n - 1].kind == PT_LOAD then SegmentPages(phs[n - 1]) else {}
  }

  ghost function SegmentPages(ph: Phdr): set<nat> { V.PagesFrom(FirstPage(ph), PageCount(ph)) }

  ghost function SegmentTables(ph: Phdr): set<Key> { V.TablesFrom(FirstPage(ph), PageCount(ph)) }

  ghost function TablesFor(phs: seq<Phdr>, n: nat): set<Key>
    requires n <= |phs|
  {
    if n == 0 then {} else TablesFor(phs, n - 1) + if phs[n - 1].kind == PT_LOAD then SegmentTables(phs[n - 1]) else {}
  }

  lemma {:induction false} ForMono(phs: seq<Phdr>, n: nat, k: nat)
    requires n <= k <= |phs|
    ensures FramesFor(phs, n) <= FramesFor(phs, k) && TablesFor(phs, n) <= TablesFor(phs, k)
  {
    if n < k { ForMono(phs, n, k - 1); }
  }

  ghost predicate Loadable(phs: seq<Phdr>, file: seq<Byte>) {
    forall i :: 0 <= i < |phs| && phs[i].kind == PT_LOAD ==> Sane(phs[i], file)
  }

  /** A later segment, of the first `n`, has the page as well, and so the last word on it. */
  ghost predicate Shadowed(phs: seq<Phdr>, i: nat, n: nat, p: nat)
    requires n <= |phs|
  {
    exists k :: i < k < n && phs[k].kind == PT_LOAD && p in SegmentPages(phs[k])
  }

  /** Of segment `i` every page is loaded that no later one has too. */
  ghost predicate SegmentIn(a: Image, phs: seq<Phdr>, i: nat, n: nat, file: seq<Byte>)
    requires n <= |phs|
  {
    && i < |phs|
    && (phs[i].kind == PT_LOAD ==>
          && phs[i].offset + phs[i].filesz <= |file|
          && forall j: nat :: j < PageCount(phs[i]) ==>
               Shadowed(phs, i, n, V.PageAt(FirstPage(phs[i]), j)) || PageLoaded(a, phs[i], file, j))
  }

  /** The first `n` segments are loaded, at their cost, and nothing else is bound or changed. */
  ghost predicate Progress(m0: Machine, m: Machine, phs: seq<Phdr>, n: nat, file: seq<Byte>) {
    && n <= |phs| && Fresh(m0) && Fresh(m) && Grew(m0, m, FramesFor(phs, n), TablesFor(phs, n))
    && SegmentsIn(ImageOf(m), phs, n, file) && Beside(ImageOf(m0), ImageOf(m), PagesFor(phs, n))
  }

  ghost predicate SegmentsIn(a: Image, phs: seq<Phdr>, n: nat, file: seq<Byte>)
    requires n <= |phs|
  {
    forall i: nat :: i < n ==> SegmentIn(a, phs, i, n, file)
  }

  lemma {:induction false} SegmentsStay(a: Image, b: Image, phs: seq<Phdr>, n: nat, file: seq<Byte>)
    requires n < |phs| && phs[n].kind == PT_LOAD && SegmentsIn(a, phs, n, file)
    requires phs[n].offset + phs[n].filesz <= |file| && FirstLoaded(b, phs[n], file, PageCount(phs[n]))
    requires Unmapped(a.firmware, a.bound) && Beside(a, b, SegmentPages(phs[n]))
    ensures SegmentsIn(b, phs, n + 1, file)
  {
    var k := n + 1;
    forall i: nat | i < k ensures SegmentIn(b, phs, i, k, file) {
      if i < n { SegmentStays(a, b, phs, i, n, file); }
    }
  }

  lemma {:induction false} SegmentStays(a: Image, b: Image, phs: seq<Phdr>, i: nat, n: nat, file: seq<Byte>)
    requires i < n < |phs| && phs[n].kind == PT_LOAD && SegmentIn(a, phs, i, n, file)
    requires Unmapped(a.firmware, a.bound) && Beside(a, b, SegmentPages(phs[n]))
    ensures SegmentIn(b, phs, i, n + 1, file)
  {
    if phs[i].kind == PT_LOAD {
      var ph := phs[i];
      forall j: nat | j < PageCount(ph)
        ensures Shadowed(phs, i, n + 1, V.PageAt(FirstPage(ph), j)) || PageLoaded(b, ph, file, j)
      {
        if V.PageAt(FirstPage(ph), j) !in SegmentPages(phs[n]) && !Shadowed(phs, i, n, V.PageAt(FirstPage(ph), j)) {
          StillLoaded(a, b, ph, file, j, SegmentPages(phs[n]));
        }
      }
    }
  }

  lemma {:induction false} ProgressNext(m0: Machine, m: Machine, w: Machine, phs: seq<Phdr>, n: nat, file: seq<Byte>)
    requires Progress(m0, m, phs, n, file) && n < |phs| && phs[n].kind == PT_LOAD && Loadable(phs, file)
    requires Partly(m, w, phs[n], file, PageCount(phs[n]))
    ensures Progress(m0, w, phs, n + 1, file)
  {
    GrewMore(m0, m, w, phs, n);
    SegmentsStay(ImageOf(m), ImageOf(w), phs, n, file);
    StockOnly(m0, m, Cost(m0, FramesFor(phs, n), TablesFor(phs, n)));
    BesideTrans(ImageOf(m0), ImageOf(m), ImageOf(w), PagesFor(phs, n), SegmentPages(phs[n]));
  }

  lemma {:induction false} GrewMore(m0: Machine, m: Machine, w: Machine, phs: seq<Phdr>, n: nat)
    requires n < |phs| && phs[n].kind == PT_LOAD
    requires Grew(m0, m, FramesFor(phs, n), TablesFor(phs, n)) && Grew(m, w, PageCount(phs[n]), SegmentTables(phs[n]))
    ensures Grew(m0, w, FramesFor(phs, n + 1), TablesFor(phs, n + 1))
  {
    GrewTrans(m0, m, w, FramesFor(phs, n), TablesFor(phs, n), PageCount(phs[n]), SegmentTables(phs[n]));
  }

  lemma {:induction false} SegmentCosts(m0: Machine, m: Machine, phs: seq<Phdr>, n: nat)
    requires n < |phs| && phs[n].kind == PT_LOAD && Grew(m0, m, FramesFor(phs, n), TablesFor(phs, n))
    ensures Cost(m, PageCount(phs[n]), SegmentTables(phs[n])) > |m.firmware| ==>
            Cost(m0, FramesFor(phs, |phs|), TablesFor(phs, |phs|)) > |m0.firmware|
  {
    CostMore(m0, m, FramesFor(phs, n), TablesFor(phs, n), PageCount(phs[n]), SegmentTables(phs[n]));
    ForMono(phs, n + 1, |phs|);
    CostMono(m0, FramesFor(phs, n + 1), TablesFor(phs, n + 1), FramesFor(phs, |phs|), TablesFor(phs, |phs|));
  }

  /** Lines 223-257: every loadable segment, in header order. */
  method Load(b: Boot, phs: seq<Phdr>, file: seq<Byte>) returns (ok: bool)
    requires Fresh(b.St()) && Loadable(phs, file)
    modifies b
    ensures ok <==> Cost(old(b.St()), FramesFor(phs, |phs|), TablesFor(phs, |phs|)) <= |old(b.firmware)|
    ensures ok ==> Progress(old(b.St()), b.St(), phs, |phs|, file)
  {
    ghost var m0 := b.St();
    GrewNone(m0);
    for n := 0 to |phs|
      invariant Progress(m0, b.St(), phs, n, file)
    {
      if phs[n].kind != PT_LOAD {
        Skipped(m0, b.St(), phs, n, file);
        continue;
      }
      ok := LoadOne(b, phs, n, file, m0);
      if !ok { return; }
    }
    ok := true;
  }

  lemma {:induction false} Skipped(m0: Machine, m: Machine, phs: seq<Phdr>, n: nat, file: seq<Byte>)
    requires Progress(m0, m, phs, n, file) && n < |phs| && phs[n].kind != PT_LOAD
    ensures Progress(m0, m, phs, n + 1, file)
  {
    NothingFor(phs, n);
    SkippedIn(ImageOf(m), phs, n, file);
  }

  lemma {:induction false} NothingFor(phs: seq<Phdr>, n: nat)
    requires n < |phs| && phs[n].kind != PT_LOAD
    ensures FramesFor(phs, n + 1) == FramesFor(phs, n) && TablesFor(phs, n + 1) == TablesFor(phs, n)
    ensures PagesFor(phs, n + 1) == PagesFor(phs, n)
  {
    assert PagesFor(phs, n) + {} == PagesFor(phs, n);
    assert TablesFor(phs, n) + {} == TablesFor(phs, n);
  }

  lemma {:induction false} SkippedIn(a: Image, phs: seq<Phdr>, n: nat, file: seq<Byte>)
    requires n < |phs| && phs[n].kind != PT_LOAD && SegmentsIn(a, phs, n, file)
    ensures SegmentsIn(a, phs, n + 1, file)
  {
    var k := n + 1;
    forall i: nat | i < k ensures SegmentIn(a, phs, i, k, file) {
      if i < n { assert SegmentIn(a, phs, i, n, file); }
    }
  }

  method LoadOne(b: Boot, phs: seq<Phdr>, n: nat, file: seq<Byte>, ghost m0: Machine) returns (ok: bool)
    requires Progress(m0, b.St(), phs, n, file) && Loadable(phs, file) && n < |phs| && phs[n].kind == PT_LOAD
    modifies b
    ensures !ok ==> Cost(m0, FramesFor(phs, |phs|), TablesFor(phs, |phs|)) > |m0.firmware|
    ensures ok ==> Progress(m0, b.St(), phs, n + 1, file)
  {
    ghost var m := b.St();
    SegmentCosts(m0, m, phs, n);
    ok := LoadSegment(b, phs[n], file);
    if ok { ProgressNext(m0, m, b.St(), phs, n, file); }
  }

  // ----- the image -----

  lemma {:induction false} PageOfByte(vaddr: nat, k: nat)
    ensures V.PageOf(vaddr + k) == V.PageAt(V.PageOf(vaddr), (vaddr % PAGE + k) / PAGE)
    ensures (vaddr + k) % PAGE == (vaddr % PAGE + k) % PAGE
  {
    var x, y := vaddr / PAGE, vaddr % PAGE + k;
    assert vaddr + k == PAGE * x + y;
    assert (vaddr + k) / PAGE == x + y / PAGE;
  }

  /** What the segment's memory holds: for an address that is not page aligned, the contents sit lower
  by the offset of that address in its page. */
  lemma {:induction false} ImageHolds(a: Image, ph: Phdr, file: seq<Byte>, k: nat)
    requires ph.offset + ph.filesz <= |file| && FirstLoaded(a, ph, file, PageCount(ph))
    requires ph.vaddr % PAGE + k < PageCount(ph) * PAGE
    ensures ByteAt(a, ph.vaddr + k) == Content(ph, file, ph.vaddr % PAGE + k)
  {
    var x := ph.vaddr % PAGE + k;
    var j, t := x / PAGE, x % PAGE;
    assert j < PageCount(ph) && j * PAGE + t == x;
    PageOfByte(ph.vaddr, k);
    assert PageLoaded(a, ph, file, j);
  }

  lemma {:induction false} TailPage(ph: Phdr, file: seq<Byte>, k: nat)
    requires Sane(ph, file) && k < ph.memsz && PageCount(ph) * PAGE <= ph.vaddr % PAGE + k
    ensures ph.vaddr % PAGE != 0 && V.PageOf(ph.vaddr + k) == V.PageAt(FirstPage(ph), PageCount(ph))
    ensures V.PageOf(ph.vaddr + k) !in SegmentPages(ph)
  {
    var n := PageCount(ph);
    assert (ph.vaddr % PAGE + k) / PAGE == n;
    PageOfByte(ph.vaddr, k);
    forall j: nat | j < n ensures V.PageAt(FirstPage(ph), j) != V.PageAt(FirstPage(ph), n) {
      PagesApart(FirstPage(ph), j, n);
    }
  }

  /** The rest of an unaligned segment, if its last bytes reach into one more page, is on a page that is not
  bound once the segment is loaded, if it was not before: byte `k` of the segment faults. */
  lemma {:induction false} TailLeftOut(m0: Machine, m: Machine, ph: Phdr, file: seq<Byte>, k: nat)
    requires Sane(ph, file) && Partly(m0, m, ph, file, PageCount(ph)) && k < ph.memsz
    requires PageCount(ph) * PAGE <= ph.vaddr % PAGE + k && V.PageOf(ph.vaddr + k) !in ImageOf(m0).bound
    ensures ph.vaddr % PAGE != 0 && V.PageOf(ph.vaddr + k) !in ImageOf(m).bound
  {
    TailPage(ph, file, k);
  }

  /** After all segments the pages bound anew are exactly theirs. */
  lemma {:induction false} BoundExactly(m0: Machine, m: Machine, phs: seq<Phdr>, file: seq<Byte>, p: nat)
    requires Progress(m0, m, phs, |phs|, file) && p !in ImageOf(m0).bound
    ensures p in ImageOf(m).bound <==> p in PagesFor(phs, |phs|)
  {
    if p in PagesFor(phs, |phs|) {
      var i, j := LastWith(phs, |phs|, p);
      assert SegmentIn(ImageOf(m), phs, i, |phs|, file);
      assert PageLoaded(ImageOf(m), phs[i], file, j);
    }
  }

  /** The last segment that has the page. */
  lemma {:induction false} LastWith(phs: seq<Phdr>, n: nat, p: nat) returns (i: nat, j: nat)
    requires n <= |phs| && p in PagesFor(phs, n)
    ensures i < n && phs[i].kind == PT_LOAD && j < PageCount(phs[i]) && V.PageAt(FirstPage(phs[i]), j) == p
    ensures !Shadowed(phs, i, n, p)
  {
    if phs[n - 1].kind == PT_LOAD && p in SegmentPages(phs[n - 1]) {
      i := n - 1;
      j :| j < PageCount(phs[i]) && V.PageAt(FirstPage(phs[i]), j) == p;
    } else {
      i, j := LastWith(phs, n - 1, p);
    }
  }

  /** A segment that shares no page with a later one is loaded in full. */
  lemma {:induction false} AloneLoaded(a: Image, phs: seq<Phdr>, file: seq<Byte>, i: nat)
    requires SegmentsIn(a, phs, |phs|, file) && i < |phs| && phs[i].kind == 1
    requires forall k :: i < k < |phs| && phs[k].kind == PT_LOAD ==> SegmentPages(phs[i]) !! SegmentPages(phs[k])
    ensures phs[i].offset + phs[i].filesz <= |file| && FirstLoaded(a, phs[i], file, PageCount(phs[i]))
  {
    assert SegmentIn(a, phs, i, |phs|, file);
    forall j: nat | j < PageCount(phs[i]) ensures PageLoaded(a, phs[i], file, j) {
      assert V.PageAt(FirstPage(phs[i]), j) in SegmentPages(phs[i]);
    }
  }

  /** For a page-aligned segment the image holds file byte `k` below p_filesz and zero up to p_memsz. */
  lemma {:induction false} ImageRight(a: Image, ph: Phdr, file: seq<Byte>, k: nat)
    requires ph.offset + ph.filesz <= |file| && FirstLoaded(a, ph, file, PageCount(ph)) && ph.vaddr % PAGE == 0 &&
      k < ph.memsz
    ensures ByteAt(a, ph.vaddr + k) == if k < ph.filesz then file[ph.offset + k] else 0
  {
    ImageHolds(a, ph, file, k);
  }

  /** And only for a page-aligned one, unless the contents happen to repeat. */
  lemma {:induction false} UnalignedWrong(a: Image, ph: Phdr, file: seq<Byte>)
    requires ph.offset + ph.filesz <= |file| && FirstLoaded(a, ph, file, PageCount(ph)) && 0 < ph.filesz && 0 < ph.memsz
    requires Content(ph, file, ph.vaddr % PAGE) != file[ph.offset]
    ensures ph.vaddr % PAGE != 0 && ByteAt(a, ph.vaddr) != file[ph.offset]
  {
    ImageHolds(a, ph, file, 0);
  }

  /** With no table below the PML4 yet, a page costs four frames: its own and three tables. */
  lemma {:induction false} FirstPageCosts(m: Machine, page: nat)
    requires m.v.tab.Keys == {Key(0, 0)}
    ensures Cost(m, 1, PathKeys(page)) == 4
  {
    var one, two, three := TableOf(page, 1), TableOf(page, 2), TableOf(page, 3);
    PathKeysAre(page);
    assert PathKeys(page) - m.v.tab.Keys == {one, two, three};
    assert one != two && two != three && one != three;
  }
}
