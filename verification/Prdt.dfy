/** The scatter/gather list of `ahci_read` and `ahci_write` (`drivers/storage/ahci.c`): AHCI 1.3.1,
section 4.2.3.3, "Physical Region Descriptor Table". */
module Prdt {
  import opened Arith
  import PE = PageEntry
  import PT = PageTree
  import V = Vmm

  const PAGE: nat := 0x1000
  const U32: nat := 0x1_0000_0000
  const DBC_LIMIT: nat := 0x40_0000  // the byte count is a 22-bit field

  /** `HBA_PRDT_ENTRY`: address in two halves, byte count less one. */
  datatype Entry = Entry(dba: nat, dbau: nat, dbc: nat)

  function EntryOf(start: nat, bytes: nat): Entry
    requires bytes > 0
  {
    Entry(start % U32, start / U32 % U32, (bytes - 1) % U32 % DBC_LIMIT)
  }

  // What the controller reads out of an entry.
  function Start(e: Entry): nat { e.dbau * U32 + e.dba }
  function Length(e: Entry): nat { e.dbc + 1 }

  /** An entry reads back as written exactly when the chunk is no longer than 4 MiB. */
  lemma {:induction false} EntryRead(start: nat, bytes: nat)
    requires start < U32 * U32 && 0 < bytes <= U32
    ensures Start(EntryOf(start, bytes)) == start
    ensures Length(EntryOf(start, bytes)) == bytes <==> bytes <= DBC_LIMIT
  {
    assert start == start / U32 * U32 + start % U32;
  }

  /** The physical address behind a virtual one: `frameOf` says which frame each page has. */
  ghost function Phys(frameOf: nat -> nat, v: nat): nat { frameOf(v / PAGE) * PAGE + v % PAGE }

  /** The physical bytes of a buffer, in order. */
  ghost function BytesOf(frameOf: nat -> nat, buffer: nat, n: nat): (s: seq<int>)
    ensures |s| == n
  {
    seq(n, k requires 0 <= k < n => Phys(frameOf, buffer + k))
  }

  ghost function Run(start: nat, n: nat): (s: seq<int>)
    ensures |s| == n
  {
    seq(n, k requires 0 <= k < n => start + k)
  }

  /** The physical bytes a list of entries stands for. */
  ghost function Covered(es: seq<Entry>): seq<int> {
    if es == [] then [] else Covered(es[..|es| - 1]) + Run(Start(es[|es| - 1]), Length(es[|es| - 1]))
  }

  lemma {:induction false} CoveredAppend(es: seq<Entry>, e: Entry)
    ensures Covered(es + [e]) == Covered(es) + Run(Start(e), Length(e))
  {
    assert (es + [e])[..|es|] == es;
  }

  /** Inside one page physical addresses run along with virtual ones. */
  lemma {:induction false} InPage(frameOf: nat -> nat, v: nat, k: nat)
    requires v % PAGE + k < PAGE
    ensures Phys(frameOf, v + k) == Phys(frameOf, v) + k
  {
    assert (v + k) / PAGE == v / PAGE && (v + k) % PAGE == v % PAGE + k;
  }

  lemma {:induction false} PhysParity(frameOf: nat -> nat, v: nat)
    ensures Phys(frameOf, v) % 2 == v % 2
  {
    var f := frameOf(v / PAGE);
    assert (f * PAGE + v % PAGE) % 2 == v % PAGE % 2;
  }

  lemma {:induction false} StepBytes(frameOf: nat -> nat, buffer: nat, d: nat, n: nat)
    requires (buffer + d) % PAGE + n <= PAGE
    ensures BytesOf(frameOf, buffer, d + n) == BytesOf(frameOf, buffer, d) + Run(Phys(frameOf, buffer + d), n)
  {
    var all, run := BytesOf(frameOf, buffer, d + n), Run(Phys(frameOf, buffer + d), n);
    forall i | d <= i < d + n ensures all[i] == run[i - d] {
      InPage(frameOf, buffer + d, i - d);
      assert buffer + i == buffer + d + (i - d);
    }
  }

  lemma {:induction false} RunJoin(start: nat, a: nat, b: nat)
    ensures Run(start, a) + Run(start + a, b) == Run(start, a + b)
  {
  }

  /** How many pages the first `n` bytes of a buffer touch. */
  function Pages(buffer: nat, n: nat): nat {
    if n == 0 then 0 else (buffer + n - 1) / PAGE - buffer / PAGE + 1
  }

  /** No entry continues where the one before it ends. */
  ghost predicate Maximal(es: seq<Entry>) {
    forall i: nat {:trigger Gap(es, i)} :: i + 1 < |es| ==> Gap(es, i)
  }

  ghost predicate Gap(es: seq<Entry>, i: nat)
    requires i + 1 < |es|
  {
    Start(es[i]) + Length(es[i]) != Start(es[i + 1])
  }

  ghost predicate Even(es: seq<Entry>) {
    forall e :: e in es ==> Start(e) % 2 == 0 && Length(e) % 2 == 0
  }

  function Total(es: seq<Entry>): nat {
    if es == [] then 0 else Total(es[..|es| - 1]) + Length(es[|es| - 1])
  }

  /** The lengths add up to what is covered. */
  lemma {:induction false} TotalCovered(es: seq<Entry>)
    ensures Total(es) == |Covered(es)|
  {
    if es != [] { TotalCovered(es[..|es| - 1]); }
  }

  /** Where the loop stands after `d` bytes: the entries written and the open chunk cover them. */
  ghost predicate Standing(frameOf: nat -> nat, buffer: nat, d: nat, es: seq<Entry>, start: nat, bytes: nat) {
    && Covered(es) + Run(start, bytes) == BytesOf(frameOf, buffer, d)
    && Maximal(es) && (es != [] ==> bytes > 0 && Start(es[|es| - 1]) + Length(es[|es| - 1]) != start)
    && (bytes == 0 ==> d == 0)
    && (buffer % 2 == 0 && d % 2 == 0 ==> Even(es) && start % 2 == 0 && bytes % 2 == 0)
  }

  /** The next `n` bytes start at `paddr` and run on from there. */
  ghost predicate NextRun(frameOf: nat -> nat, buffer: nat, d: nat, paddr: nat, n: nat) {
    && n > 0 && BytesOf(frameOf, buffer, d + n) == BytesOf(frameOf, buffer, d) + Run(paddr, n)
    && (buffer % 2 == 0 ==> d % 2 == 0 && paddr % 2 == 0)
  }

  lemma {:induction false} StandingExtends(frameOf: nat -> nat, buffer: nat, d: nat, es: seq<Entry>, start: nat,
      bytes: nat, n: nat)
    requires Standing(frameOf, buffer, d, es, start, bytes) && NextRun(frameOf, buffer, d, start + bytes, n)
    ensures Standing(frameOf, buffer, d + n, es, start, bytes + n)
  {
    RunJoin(start, bytes, n);
    Assoc(Covered(es), Run(start, bytes), Run(start + bytes, n));
  }

  lemma {:induction false} Assoc(a: seq<int>, b: seq<int>, c: seq<int>)
    ensures a + (b + c) == (a + b) + c
  {
  }

  lemma {:induction false} StandingFlushes(frameOf: nat -> nat, buffer: nat, d: nat, es: seq<Entry>, e: Entry,
      start: nat, bytes: nat, paddr: nat, n: nat)
    requires Standing(frameOf, buffer, d, es, start, bytes) && NextRun(frameOf, buffer, d, paddr, n)
    requires Start(e) == start && Length(e) == bytes && start + bytes != paddr
    ensures Standing(frameOf, buffer, d + n, es + [e], paddr, n)
  {
    Flushed(es, e, start, bytes, BytesOf(frameOf, buffer, d));
  }

  lemma {:induction false} Flushed(es: seq<Entry>, e: Entry, start: nat, bytes: nat, all: seq<int>)
    requires Start(e) == start && Length(e) == bytes && Covered(es) + Run(start, bytes) == all && Maximal(es)
    requires es != [] ==> Start(es[|es| - 1]) + Length(es[|es| - 1]) != start
    ensures Covered(es + [e]) == all && Maximal(es + [e]) && (es + [e])[|es|] == e
    ensures Even(es) && start % 2 == 0 && bytes % 2 == 0 ==> Even(es + [e])
  {
    CoveredAppend(es, e);
    MaximalAppend(es, e);
  }

  lemma {:induction false} MaximalAppend(es: seq<Entry>, e: Entry)
    requires Maximal(es) && (es != [] ==> Start(es[|es| - 1]) + Length(es[|es| - 1]) != Start(e))
    ensures Maximal(es + [e])
    ensures Even(es) && Start(e) % 2 == 0 && Length(e) % 2 == 0 ==> Even(es + [e])
  {
    var es' := es + [e];
    forall i: nat | i + 1 < |es'| ensures Gap(es', i) {
      if i + 1 < |es| { assert Gap(es, i); }
    }
  }

  lemma {:induction false} StandingOpens(frameOf: nat -> nat, buffer: nat, paddr: nat, n: nat)
    requires NextRun(frameOf, buffer, 0, paddr, n)
    ensures Standing(frameOf, buffer, n, [], paddr, n)
  {
    assert BytesOf(frameOf, buffer, 0) == [];
  }

  /** The trailing chunk is written out. */
  lemma {:induction false} StandingEnds(frameOf: nat -> nat, buffer: nat, d: nat, es: seq<Entry>, e: Entry, start: nat,
      bytes: nat)
    requires Standing(frameOf, buffer, d, es, start, bytes) && Start(e) == start && Length(e) == bytes
    ensures var es' := es + [e];
      && Covered(es') == BytesOf(frameOf, buffer, d) && Maximal(es')
      && (buffer % 2 == 0 && d % 2 == 0 ==> Even(es'))
  {
    Flushed(es, e, start, bytes, BytesOf(frameOf, buffer, d));
  }

  // ----- the loop -----

  lemma {:induction false} PagesStep(buffer: nat, d: nat, n: nat)
    requires n > 0 && (buffer + d) % PAGE + n <= PAGE && (d == 0 || (buffer + d) % PAGE == 0)
    ensures Pages(buffer, d + n) == Pages(buffer, d) + 1
  {
    var v := buffer + d;
    assert v + n - 1 == v + (n - 1) && v % PAGE + (n - 1) < PAGE;
    assert (v + (n - 1)) / PAGE == v / PAGE;
    if d > 0 { assert (v - 1) / PAGE == v / PAGE - 1; }
  }

  lemma {:induction false} PagesMono(buffer: nat, a: nat, b: nat)
    requires a <= b
    ensures Pages(buffer, a) <= Pages(buffer, b)
  {
    if 0 < a { assert (buffer + a - 1) / PAGE <= (buffer + b - 1) / PAGE; }
    if 0 == a < b { assert buffer / PAGE <= (buffer + b - 1) / PAGE; }
  }

  /** Between steps the loop is at the start of the buffer or of a page. */
  ghost predicate OnEdge(buffer: nat, d: nat) {
    (d == 0 || (buffer + d) % PAGE == 0) && (buffer % 2 == 0 ==> d % 2 == 0)
  }

  lemma {:induction false} EdgeStep(buffer: nat, d: nat, step: nat)
    requires OnEdge(buffer, d) && step <= PAGE - (buffer + d) % PAGE
    ensures step == PAGE - (buffer + d) % PAGE ==> OnEdge(buffer, d + step)
  {
    var v := buffer + d;
    assert v == v / PAGE * PAGE + v % PAGE;
    if step == PAGE - v % PAGE { NextPage(v / PAGE, v + step); }
  }

  lemma {:induction false} NextPage(q: nat, w: nat)
    requires w == q * PAGE + PAGE
    ensures w % PAGE == 0 && w % 2 == 0
  {
  }

  /** What the loop keeps, `d` of `bytes` bytes on. */
  ghost predicate LoopOk(frameOf: nat -> nat, buffer: nat, bytes: nat, d: nat, es: seq<Entry>, start: nat, chunk: nat) {
    && d <= bytes && start < U32 * U32 && chunk <= d && |es| + (if chunk > 0 then 1 else 0) <= Pages(buffer, d)
    && Standing(frameOf, buffer, d, es, start, chunk) && (d < bytes ==> OnEdge(buffer, d))
  }

  /** The step the loop takes: to the end of the page, or of the buffer. */
  function StepOf(vaddr: nat, remaining: nat): nat {
    var toPageEnd := PAGE - vaddr % PAGE;
    if toPageEnd < remaining then toPageEnd else remaining
  }

  lemma {:induction false} StepFacts(buffer: nat, d: nat, bytes: nat)
    requires d < bytes && OnEdge(buffer, d)
    ensures var step := StepOf(buffer + d, bytes - d);
      && step > 0 && (buffer + d) % PAGE + step <= PAGE && Pages(buffer, d + step) == Pages(buffer, d) + 1
      && Pages(buffer, d + step) <= Pages(buffer, bytes) && (d + step < bytes ==> OnEdge(buffer, d + step))
  {
    var step := StepOf(buffer + d, bytes - d);
    PagesStep(buffer, d, step);
    PagesMono(buffer, d + step, bytes);
    EdgeStep(buffer, d, step);
  }

  // ----- over the page tables -----

  /** The frames of the pages, as the page tables have them; frame 0 where a page is not mapped. */
  ghost function FramesIn(m: map<nat, PE.Entry>): nat -> nat {
    p => if p % PT.PAGES in m then m[p % PT.PAGES].frame else 0
  }

  /** The frame of an entry is a field of 40 bits. */
  ghost predicate Frames40(m: map<nat, PE.Entry>) {
    forall p :: p in m ==> m[p].frame < PE.FRAME_LIMIT
  }

  lemma {:induction false} PhysIsTranslate(m: map<nat, PE.Entry>, vaddr: nat)
    requires Frames40(m)
    ensures Phys(FramesIn(m), vaddr) == V.Translate(m, vaddr) < U32 * U32
  {
  }

  ghost predicate Tabled(tab: map<PT.Key, nat>, buffer: nat, bytes: nat) {
    forall v: nat :: buffer <= v < buffer + bytes ==> PT.TableOf(V.PageOf(v), 3) in tab
  }

  /** The page tables hold and translate as `m`, so that the pages have the frames `frameOf`. */
  ghost predicate Translates(t: V.PageTables, m: map<nat, PE.Entry>)
    reads t, t.pmm.bitmap, t.pmm.ram
  {
    t.Valid() && PT.Mapping(t.ViewOf()) == m
  }

  /** The table of entries is not the frame bitmap. */
  ghost predicate Beside(t: V.PageTables, prdt: array<Entry>) { (prdt as object) != t.pmm.bitmap }

  /** Line 648, which leaves the table of entries alone. */
  method Lookup(t: V.PageTables, vaddr: nat, ghost m: map<nat, PE.Entry>, prdt: array<Entry>, ghost n: nat)
      returns (paddr: nat, ok: bool)
    requires Translates(t, m) && Beside(t, prdt) && Frames40(m) && n <= prdt.Length
    modifies t`tab, t.pmm`used, t.pmm.bitmap, t.pmm.ram
    ensures ok ==> Translates(t, m) && paddr == Phys(FramesIn(m), vaddr) < U32 * U32
    ensures PT.TableOf(V.PageOf(vaddr), 3) in old(t.tab) ==> ok && t.tab == old(t.tab)
    ensures prdt[..n] == old(prdt[..n])
  {
    PhysIsTranslate(m, vaddr);
    paddr, ok := t.GetPhysical(vaddr);
  }

  /** Lines 655-678, which leave the page tables alone. */
  method AdvanceOver(t: V.PageTables, ghost m: map<nat, PE.Entry>, ghost buffer: nat, ghost d: nat, ghost bytes: nat,
      ghost frameOf: nat -> nat,
      prdt: array<Entry>, n: nat, start: nat, chunk: nat, lastEnd: nat, vaddr: nat, remaining: nat, paddr: nat)
    returns (n': nat, start': nat, chunk': nat, end': nat, vaddr': nat, remaining': nat, ghost d': nat)
    requires Translates(t, m) && Beside(t, prdt)
    requires bytes <= DBC_LIMIT && Pages(buffer, bytes) <= prdt.Length && n <= prdt.Length
    requires vaddr == buffer + d && d + remaining == bytes && remaining > 0
    requires LoopOk(frameOf, buffer, bytes, d, prdt[..n], start, chunk) && lastEnd == start + chunk
    requires paddr == Phys(frameOf, vaddr) < U32 * U32
    modifies prdt
    ensures Translates(t, m) && t.tab == old(t.tab)
    ensures n' <= prdt.Length && start' + chunk' == end' && vaddr' == buffer + d' && d' + remaining' == bytes && d < d'
    ensures LoopOk(frameOf, buffer, bytes, d', prdt[..n'], start', chunk')
  {
    n', start', chunk', end', vaddr', remaining', d' :=
      Move(buffer, d, bytes, frameOf, prdt, n, start, chunk, lastEnd, vaddr, remaining, paddr);
  }

  method Move(ghost buffer: nat, ghost d: nat, ghost bytes: nat, ghost frameOf: nat -> nat,
      prdt: array<Entry>, n: nat, start: nat, chunk: nat, lastEnd: nat, vaddr: nat, remaining: nat, paddr: nat)
    returns (n': nat, start': nat, chunk': nat, end': nat, vaddr': nat, remaining': nat, ghost d': nat)
    requires bytes <= DBC_LIMIT && Pages(buffer, bytes) <= prdt.Length && n <= prdt.Length
    requires vaddr == buffer + d && d + remaining == bytes && remaining > 0
    requires LoopOk(frameOf, buffer, bytes, d, prdt[..n], start, chunk) && lastEnd == start + chunk
    requires paddr == Phys(frameOf, vaddr) < U32 * U32
    modifies prdt
    ensures n' <= prdt.Length && start' + chunk' == end' && vaddr' == buffer + d' && d' + remaining' == bytes && d < d'
    ensures LoopOk(frameOf, buffer, bytes, d', prdt[..n'], start', chunk')
  {
    var step := StepOf(vaddr, remaining);
    n', start', chunk' := Advance(buffer, d, bytes, frameOf, prdt, n, start, chunk, lastEnd, paddr, step);
    end', vaddr', remaining', d' := paddr + step, vaddr + step, remaining - step, d + step;
  }

  /** One round of the loop. */
  method Round(t: V.PageTables, ghost m: map<nat, PE.Entry>, ghost frameOf: nat -> nat, ghost buffer: nat,
      ghost d: nat, ghost bytes: nat,
      prdt: array<Entry>, n: nat, start: nat, chunk: nat, lastEnd: nat, vaddr: nat, remaining: nat)
    returns (n': nat, start': nat, chunk': nat, end': nat, vaddr': nat, remaining': nat, ghost d': nat, ok: bool)
    requires Translates(t, m) && Beside(t, prdt) && Frames40(m) && frameOf == FramesIn(m)
    requires bytes <= DBC_LIMIT && Pages(buffer, bytes) <= prdt.Length && n <= prdt.Length
    requires vaddr == buffer + d && d + remaining == bytes && remaining > 0
    requires LoopOk(frameOf, buffer, bytes, d, prdt[..n], start, chunk) && lastEnd == start + chunk
    modifies prdt, t`tab, t.pmm`used, t.pmm.bitmap, t.pmm.ram
    ensures ok ==>
      && Translates(t, m)
      && n' <= prdt.Length && start' + chunk' == end' && vaddr' == buffer + d' && d' + remaining' == bytes && d < d'
      && LoopOk(frameOf, buffer, bytes, d', prdt[..n'], start', chunk')
    ensures Tabled(old(t.tab), buffer, bytes) ==> ok && t.tab == old(t.tab)
  {
    n', start', chunk', end', vaddr', remaining', d' := n, start, chunk, lastEnd, vaddr, remaining, d;
    var paddr;
    paddr, ok := Lookup(t, vaddr, m, prdt, n);
    if !ok { return; }
    n', start', chunk', end', vaddr', remaining', d' :=
      AdvanceOver(t, m, buffer, d, bytes, frameOf, prdt, n, start, chunk, lastEnd, vaddr, remaining, paddr);
  }

  /** The list stands for the buffer's bytes, in order, in as few entries as their places allow. */
  ghost predicate Lists(es: seq<Entry>, frameOf: nat -> nat, buffer: nat, bytes: nat) {
    && |es| <= Pages(buffer, bytes) && Covered(es) == BytesOf(frameOf, buffer, bytes) && Maximal(es)
    && (buffer % 2 == 0 && bytes % 2 == 0 ==> Even(es))
  }

  /** Lines 637-692 and 778-833. The lookup may need frames for tables; it does not when every page of the
  buffer has its table. */
  method Build(t: V.PageTables, buffer: nat, bytes: nat, prdt: array<Entry>) returns (n: nat, ok: bool)
    requires t.Valid() && Beside(t, prdt) && Frames40(PT.Mapping(t.ViewOf()))
    requires bytes <= DBC_LIMIT && Pages(buffer, bytes) <= prdt.Length
    modifies prdt, t`tab, t.pmm`used, t.pmm.bitmap, t.pmm.ram
    ensures Tabled(old(t.tab), buffer, bytes) ==> ok
    ensures ok ==>
      && Translates(t, old(PT.Mapping(t.ViewOf()))) && n <= prdt.Length
      && Lists(prdt[..n], FramesIn(old(PT.Mapping(t.ViewOf()))), buffer, bytes)
  {
    ghost var m := PT.Mapping(t.ViewOf());
    var start, chunk;
    n, start, chunk, ok := Gather(t, m, FramesIn(m), buffer, bytes, prdt);
    if ok && chunk > 0 { n := Close(t, m, FramesIn(m), buffer, bytes, prdt, n, start, chunk); }
  }

  method Gather(t: V.PageTables, ghost m: map<nat, PE.Entry>, ghost frameOf: nat -> nat, buffer: nat, bytes: nat,
      prdt: array<Entry>)
    returns (n: nat, start: nat, chunk: nat, ok: bool)
    requires Translates(t, m) && Beside(t, prdt) && Frames40(m) && frameOf == FramesIn(m)
    requires bytes <= DBC_LIMIT && Pages(buffer, bytes) <= prdt.Length
    modifies prdt, t`tab, t.pmm`used, t.pmm.bitmap, t.pmm.ram
    ensures Tabled(old(t.tab), buffer, bytes) ==> ok
    ensures ok ==>
      Translates(t, m) && n <= prdt.Length && LoopOk(frameOf, buffer, bytes, bytes, prdt[..n], start, chunk)
  {
    var remaining: nat, vaddr: nat, lastEnd: nat := bytes, buffer, 0;
    n, start, chunk, ok := 0, 0, 0, true;
    ghost var tab, d: nat := t.tab, 0;
    LoopStart(frameOf, buffer, bytes, prdt[..0]);
    while remaining > 0
      invariant vaddr == buffer + d && d + remaining == bytes && lastEnd == start + chunk && n <= prdt.Length
      invariant Translates(t, m) && (Tabled(tab, buffer, bytes) ==> t.tab == tab)
      invariant LoopOk(frameOf, buffer, bytes, d, prdt[..n], start, chunk)
    {
      n, start, chunk, lastEnd, vaddr, remaining, d, ok :=
        Round(t, m, frameOf, buffer, d, bytes, prdt, n, start, chunk, lastEnd, vaddr, remaining);
      if !ok { return; }
    }
  }

  lemma {:induction false} LoopStart(frameOf: nat -> nat, buffer: nat, bytes: nat, es: seq<Entry>)
    requires es == []
    ensures LoopOk(frameOf, buffer, bytes, 0, es, 0, 0)
  {
  }

  /** Lines 681-692: the trailing chunk. */
  method Close(t: V.PageTables, ghost m: map<nat, PE.Entry>, ghost frameOf: nat -> nat, ghost buffer: nat,
      ghost bytes: nat,
      prdt: array<Entry>, n: nat, start: nat, chunk: nat)
    returns (n': nat)
    requires Translates(t, m) && Beside(t, prdt) && n < prdt.Length && 0 < chunk <= DBC_LIMIT
    requires LoopOk(frameOf, buffer, bytes, bytes, prdt[..n], start, chunk)
    modifies prdt
    ensures Translates(t, m) && n' <= prdt.Length && Lists(prdt[..n'], frameOf, buffer, bytes)
  {
    ghost var es, e := prdt[..n], EntryOf(start, chunk);
    n', e := Flush(prdt, n, start, chunk);
    StandingEnds(frameOf, buffer, bytes, es, e, start, chunk);
  }

  /** Lines 655-674: one step of at most a page, which extends the open chunk or starts a new one. */
  method Advance(ghost buffer: nat, ghost d: nat, ghost bytes: nat, ghost frameOf: nat -> nat, prdt: array<Entry>,
      n: nat, start: nat, chunk: nat, lastEnd: nat, paddr: nat, step: nat)
    returns (n': nat, start': nat, chunk': nat)
    requires bytes <= DBC_LIMIT && Pages(buffer, bytes) <= prdt.Length && n <= prdt.Length
    requires d < bytes && LoopOk(frameOf, buffer, bytes, d, prdt[..n], start, chunk) && lastEnd == start + chunk
    requires paddr == Phys(frameOf, buffer + d) < U32 * U32 && step == StepOf(buffer + d, bytes - d)
    modifies prdt
    ensures n' <= prdt.Length && start' + chunk' == paddr + step
    ensures LoopOk(frameOf, buffer, bytes, d + step, prdt[..n'], start', chunk')
  {
    StepFacts(buffer, d, bytes);
    RunAhead(frameOf, buffer, d, step);
    ghost var es := prdt[..n];
    n', start', chunk' := Extend(buffer, d, frameOf, prdt, n, start, chunk, lastEnd, paddr, step);
    LoopNext(frameOf, buffer, bytes, d, es, start, chunk, prdt[..n'], start', chunk', step);
  }

  lemma {:induction false} RunAhead(frameOf: nat -> nat, buffer: nat, d: nat, step: nat)
    requires OnEdge(buffer, d) && step > 0 && (buffer + d) % PAGE + step <= PAGE
    ensures NextRun(frameOf, buffer, d, Phys(frameOf, buffer + d), step)
  {
    StepBytes(frameOf, buffer, d, step);
    PhysParity(frameOf, buffer + d);
  }

  lemma {:induction false} LoopNext(frameOf: nat -> nat, buffer: nat, bytes: nat, d: nat, es: seq<Entry>, start: nat,
      chunk: nat, es': seq<Entry>, start': nat, chunk': nat, step: nat)
    requires d < bytes && LoopOk(frameOf, buffer, bytes, d, es, start, chunk) && step == StepOf(buffer + d, bytes - d)
    requires |es'| <= |es| + (if chunk > 0 then 1 else 0) && start' < U32 * U32 && 0 < chunk' <= chunk + step
    requires Standing(frameOf, buffer, d + step, es', start', chunk')
    ensures LoopOk(frameOf, buffer, bytes, d + step, es', start', chunk')
  {
    StepFacts(buffer, d, bytes);
  }

  /** Lines 657-664 and 684-690. */
  method Flush(prdt: array<Entry>, n: nat, start: nat, chunk: nat) returns (n': nat, ghost e: Entry)
    requires n < prdt.Length && 0 < chunk <= DBC_LIMIT && start < U32 * U32
    modifies prdt
    ensures n' == n + 1 && prdt[..n'] == old(prdt[..n]) + [e] && Start(e) == start && Length(e) == chunk
  {
    EntryRead(start, chunk);
    e := EntryOf(start, chunk);
    prdt[n] := EntryOf(start, chunk);
    n' := n + 1;
  }

  method Extend(ghost buffer: nat, ghost d: nat, ghost frameOf: nat -> nat, prdt: array<Entry>,
      n: nat, start: nat, chunk: nat, lastEnd: nat, paddr: nat, step: nat)
    returns (n': nat, start': nat, chunk': nat)
    requires n + (if chunk > 0 then 1 else 0) <= prdt.Length && lastEnd == start + chunk && chunk <= DBC_LIMIT
    requires start < U32 * U32 && NextRun(frameOf, buffer, d, paddr, step)
    requires Standing(frameOf, buffer, d, prdt[..n], start, chunk)
    modifies prdt
    ensures n' <= prdt.Length && n' <= n + (if chunk > 0 then 1 else 0)
    ensures start' + chunk' == paddr + step && 0 < chunk' <= chunk + step && (start' == start || start' == paddr)
    ensures Standing(frameOf, buffer, d + step, prdt[..n'], start', chunk')
  {
    n', start', chunk' := n, start, chunk;
    if chunk == 0 || paddr != lastEnd {
      if chunk > 0 {
        ghost var es := prdt[..n];
        ghost var e;
        n', e := Flush(prdt, n, start, chunk);
        StandingFlushes(frameOf, buffer, d, es, e, start, chunk, paddr, step);
      } else {
        assert prdt[..n] == [];
        StandingOpens(frameOf, buffer, paddr, step);
      }
      start', chunk' := paddr, 0;
    } else {
      StandingExtends(frameOf, buffer, d, prdt[..n], start, chunk, step);
    }
    chunk' := chunk' + step;
  }

  /** A transfer the driver accepts, at most 128 sectors of at most 4096 bytes, fits the table of 248
  entries and its 22-bit byte counts. */
  lemma {:induction false} TransferFits(buffer: nat, count: nat, sector: nat)
    requires count <= 128 && sector <= 4096
    ensures count * sector <= DBC_LIMIT && Pages(buffer, count * sector) <= 248
  {
    MulMono(count, sector, 4096);
    var n := count * sector;
    assert n <= 128 * 4096;
    if n > 0 { assert (buffer + n - 1) / PAGE <= buffer / PAGE + 128; }
  }

  // ----- the command (lines 694-733, and the same for a write) -----

  /** What the controller is told: the length of the command in double words, the direction, the table's length. */
  datatype Header = Header(cfl: nat, write: bool, prdtl: nat)

  /** The register FIS; its other bytes stay zero. */
  datatype Fis = Fis(kind: nat, c: bool, command: nat, lba: seq<nat>, device: nat, countl: nat, counth: nat)

  datatype Request = Request(header: Header, fis: Fis)

  function ByteAt(x: nat, shift: nat): nat
    requires shift > 0
  {
    x / shift % 0x100
  }

  /** The six bytes of an address, the lowest first. */
  function Bytes(lba: nat): seq<nat> {
    [lba % 0x100, ByteAt(lba, 0x100), ByteAt(lba, 0x1_0000),
     ByteAt(lba, 0x100_0000), ByteAt(lba, 0x1_0000_0000), ByteAt(lba, 0x100_0000_0000)]
  }

  function Command(lba48: bool, write: bool, lba: nat, count: nat, entries: nat): Request {
    Request(
      Header(5, write, entries % 0x1_0000),
      if lba48 then
        Fis(0x27, true, if write then 0x35 else 0x25, Bytes(lba), 0x40, count % 0x100, ByteAt(count, 0x100))
      else
        Fis(0x27, true, if write then 0xCA else 0xC8, Bytes(lba)[..3] + [0, 0, 0],
            ByteAt(lba, 0x100_0000) % 0x10 + 0x40, count % 0x100, 0))
  }

  // ----- as the drive reads it (ATA/ATAPI Command Set) -----

  datatype Opcode = Dma(write: bool, wide: bool) | Other

  /** READ DMA EXT, WRITE DMA EXT, READ DMA and WRITE DMA. */
  function OpcodeOf(command: nat): Opcode {
    match command
    case 0x25 => Dma(false, true)
    case 0x35 => Dma(true, true)
    case 0xC8 => Dma(false, false)
    case 0xCA => Dma(true, false)
    case _ => Other
  }

  function Low3(b: seq<nat>): nat
    requires |b| >= 3
  {
    b[0] + 0x100 * (b[1] + 0x100 * b[2])
  }

  /** The address: 48 bits from six bytes, or 28 bits from three and the device field. */
  function AddressIn(f: Fis): nat {
    if |f.lba| != 6 then 0
    else if OpcodeOf(f.command) == Dma(false, true) || OpcodeOf(f.command) == Dma(true, true)
    then Low3(f.lba) + 0x100_0000 * Low3(f.lba[3..])
    else Low3(f.lba) + 0x100_0000 * (f.device % 0x10)
  }

  /** The number of sectors: 16 bits or 8, with 0 for the largest. */
  function CountIn(f: Fis): nat {
    if OpcodeOf(f.command) == Dma(false, true) || OpcodeOf(f.command) == Dma(true, true)
    then (if f.countl + 0x100 * f.counth == 0 then 0x1_0000 else f.countl + 0x100 * f.counth)
    else if f.countl == 0 then 0x100 else f.countl
  }

  datatype Decoded = Transfer(write: bool, lba: nat, sectors: nat) | Rejected

  /** A command in a register FIS, for a logical address (bit 6 of the device field), with one of those opcodes. */
  function Decode(f: Fis): Decoded {
    if f.kind == 0x27 && f.c && f.device / 0x40 % 2 == 1 && OpcodeOf(f.command).Dma?
    then Transfer(OpcodeOf(f.command).write, AddressIn(f), CountIn(f))
    else Rejected
  }

  /** The drive reads the address it was meant to exactly when that fits the command's width. */
  lemma {:induction false} AddressRoundTrip(lba48: bool, write: bool, lba: nat, count: nat, entries: nat)
    ensures AddressIn(Command(lba48, write, lba, count, entries).fis) == lba <==>
            lba < (if lba48 then 0x1_0000_0000_0000 else 0x1000_0000)
  {
    if lba48 { WideAddress(write, lba, count, entries); } else { NarrowAddress(write, lba, count, entries); }
  }

  lemma {:induction false} LowBytes(x: nat)
    ensures Low3(Bytes(x)) == x - 0x100_0000 * (x / 0x100_0000)
  {
    DivDiv(x, 0x100, 0x100);
    DivDiv(x, 0x1_0000, 0x100);
    Rebuilt(x, x / 0x100, x / 0x1_0000, x / 0x100_0000, x % 0x100, ByteAt(x, 0x100), ByteAt(x, 0x1_0000));
  }

  /** Three bytes taken off a number and put back. */
  lemma {:induction false} Rebuilt(x0: nat, x1: nat, x2: nat, x3: nat, b0: nat, b1: nat, b2: nat)
    requires x0 == 0x100 * x1 + b0 && x1 == 0x100 * x2 + b1 && x2 == 0x100 * x3 + b2
    ensures b0 + 0x100 * (b1 + 0x100 * b2) == x0 - 0x100_0000 * x3
  {
  }

  lemma {:induction false} WideAddress(write: bool, lba: nat, count: nat, entries: nat)
    ensures AddressIn(Command(true, write, lba, count, entries).fis) == lba <==> lba < 0x1_0000_0000_0000
  {
    var x := lba / 0x100_0000;
    LowBytes(lba);
    LowBytes(x);
    DivDiv(lba, 0x100_0000, 0x100);
    DivDiv(lba, 0x100_0000, 0x1_0000);
    var b := Bytes(lba);
    assert b[3..][0] == Bytes(x)[0] && b[3..][1] == Bytes(x)[1] && b[3..][2] == Bytes(x)[2];
  }

  /** The top four bits of a short address share the device field with bit 6. */
  lemma {:induction false} DeviceField(x: nat)
    ensures var d := x % 0x100 % 0x10 + 0x40; d / 0x40 % 2 == 1 && d % 0x10 == x % 0x10
  {
    var n := x % 0x100 % 0x10;
    assert x % 0x100 % 0x10 == x % 0x10;
    assert n < 0x10;
  }

  lemma {:induction false} FitsShort(lba: nat, x: nat, low: nat)
    requires x == lba / 0x100_0000 && low == lba - 0x100_0000 * x
    ensures low + 0x100_0000 * (x % 0x10) == lba <==> lba < 0x1000_0000
  {
    assert x < 0x10 <==> lba < 0x1000_0000;
  }

  lemma {:induction false} NarrowAddress(write: bool, lba: nat, count: nat, entries: nat)
    ensures var f := Command(false, write, lba, count, entries).fis;
      f.device / 0x40 % 2 == 1 && (AddressIn(f) == lba <==> lba < 0x1000_0000)
  {
    var x := lba / 0x100_0000;
    LowBytes(lba);
    DeviceField(x);
    FitsShort(lba, x, Low3(Bytes(lba)));
  }

  lemma {:induction false} CountField(count: nat)
    ensures var (l, h) := (count % 0x100, ByteAt(count, 0x100));
      && ((if l + 0x100 * h == 0 then 0x1_0000 else l + 0x100 * h) == count <==> 0 < count <= 0x1_0000)
      && ((if l == 0 then 0x100 else l) == count <==> 0 < count <= 0x100)
  {
    assert count == count / 0x100 * 0x100 + count % 0x100;
    assert count / 0x100 % 0x100 == count / 0x100 <==> count / 0x100 < 0x100;
  }

  /** It is the number asked for exactly when that is not 0 and fits the field. */
  lemma {:induction false} CountRoundTrip(lba48: bool, write: bool, lba: nat, count: nat, entries: nat)
    ensures CountIn(Command(lba48, write, lba, count, entries).fis) == count <==>
            0 < count <= (if lba48 then 0x1_0000 else 0x100)
  {
    CountField(count);
  }

  /** The drive carries out the transfer asked for, in the direction asked for, exactly when address and count fit;
  the controller moves the data the same way, over the entries of the table. */
  lemma {:induction false} CommandRoundTrip(lba48: bool, write: bool, lba: nat, count: nat, entries: nat)
    ensures var r := Command(lba48, write, lba, count, entries);
      && r.header == Header(5, write, entries % 0x1_0000)
      && Decode(r.fis).Transfer? && Decode(r.fis).write == write
      && (Decode(r.fis) == Transfer(write, lba, count) <==>
            lba < (if lba48 then 0x1_0000_0000_0000 else 0x1000_0000) &&
              0 < count <= (if lba48 then 0x1_0000 else 0x100))
  {
    AddressRoundTrip(lba48, write, lba, count, entries);
    CountRoundTrip(lba48, write, lba, count, entries);
    if !lba48 { NarrowAddress(write, lba, count, entries); }
  }
}
