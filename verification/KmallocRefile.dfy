/** Where `kfree` leaves a page that was full (`memory/kmalloc.c:108-124`). */
module KmallocRefile {
  import opened Seqs
  import opened Buckets
  import opened PageLists
  import opened KmallocState

  ghost predicate StepAt(pages: Pages, s: seq<nat>, i: nat)
    requires i < |s|
  {
    s[i] != 0 && s[i] in pages && pages[s[i]].next == After(s, i)
  }

  /** From `head` on the `next` links read `s`. */
  ghost predicate Reads(pages: Pages, head: nat, s: seq<nat>) {
    head == HeadOf(s) && forall i: nat {:trigger StepAt(pages, s, i)} :: i < |s| ==> StepAt(pages, s, i)
  }

  lemma {:induction false} LinkedReads(pages: Pages, other: Pages, head: nat, s: seq<nat>)
    requires Linked(pages, head, s) && forall p :: p in s && p in pages ==> p in other && other[p].next == pages[p].next
    ensures Reads(other, head, s)
  {
    forall i: nat | i < |s| ensures StepAt(other, s, i) {
      assert LinkedAt(pages, s, i);
    }
  }

  lemma {:induction false} ReadsPushed(pages: Pages, x: nat, s: seq<nat>)
    requires x != 0 && x in pages && pages[x].next == HeadOf(s) && Reads(pages, HeadOf(s), s)
    ensures Reads(pages, x, [x] + s)
  {
    var t := [x] + s;
    forall i: nat | i < |t| ensures StepAt(pages, t, i) {
      if i > 0 { assert StepAt(pages, s, i - 1); }
    }
  }

  ghost function IndexIn(s: seq<nat>, p: nat): (i: nat)
    requires p in s
    ensures i < |s| && s[i] == p
  {
    var i :| 0 <= i < |s| && s[i] == p;
    i
  }

  /** The lists of full pages afterwards: the page is gone from its own and heads that of bucket 0, the smallest. */
  ghost function FullAfter(g: Shape, p: nat, b: nat, c: nat): seq<nat>
    requires b < |g.full| && c < |g.full| && p in g.full[b]
  {
    (if c == 0 then [p] else []) + if c == b then Drop(g.full[b], IndexIn(g.full[b], p)) else g.full[c]
  }

  /** The pages are the same, and all but `p` differ in their links at most. */
  ghost predicate SameOthers(pages: Pages, other: Pages, p: nat) {
    && pages.Keys == other.Keys
    && forall q :: q in pages && q != p ==> other[q] == pages[q].(next := other[q].next, prev := other[q].prev)
  }

  /** What freeing the block `a` of the full page `p` makes of `h`: the block is back in the page, and the page, which
  has room now, heads the full list of bucket 0. No other page changed its list. */
  ghost predicate Refiled(h: Heap, g: Shape, w: Heap, p: nat, a: nat) {
    && Sized(h, g) && p in h.pages && h.pages[p].bucket < BUCKETS && p in g.full[h.pages[p].bucket]
    && var (d, b) := (h.pages[p], h.pages[p].bucket);
    && |w.full| == BUCKETS && w.free == h.free && w.full[0] == p && p in w.pages && SameOthers(h.pages, w.pages, p)
    && w.words == h.words[a := d.freeList] && d.inUse > 0
    && w.pages[p] == Desc(b, d.inUse - 1, d.total, a, if b == 0 && d.prev == 0 then d.next else h.full[0], 0)
    && (forall c: nat :: c < BUCKETS ==> Reads(w.pages, w.free[c], g.free[c]))
    && (forall c: nat :: c < BUCKETS ==> Reads(w.pages, w.full[c], FullAfter(g, p, b, c)))
  }

  /** No two lists share a page. */
  lemma {:induction false} ListsApart(h: Heap, g: Shape, b: nat, c: nat)
    requires Inv(h, g) && b < BUCKETS && c < BUCKETS
    ensures forall q :: q in g.full[b] ==> q !in g.free[c] && (c != b ==> q !in g.full[c])
  {
    assert FiledOk(h, g, b) && FiledOk(h, g, c);
    forall q | q in g.full[b] ensures q !in g.free[c] && (c != b ==> q !in g.full[c]) {
      assert Belongs(h, q, b, true);
    }
  }

  /** The lists once the block is back and the page taken out of its own. */
  ghost predicate TakenOut(pages: Pages, g: Shape, b: nat, i: nat)
    requires |g.free| == |g.full| == BUCKETS && b < BUCKETS && i < |g.full[b]|
  {
    && Linked(pages, HeadOf(Drop(g.full[b], i)), Drop(g.full[b], i))
    && (forall c: nat :: c < BUCKETS ==> Linked(pages, HeadOf(g.free[c]), g.free[c]))
    && (forall c: nat :: c < BUCKETS && c != b ==> Linked(pages, HeadOf(g.full[c]), g.full[c]))
  }

  lemma {:induction false} PutLinked(h: Heap, p: nat, a: nat, s: seq<nat>)
    requires p in h.pages && h.pages[p].inUse > 0 && Linked(h.pages, HeadOf(s), s)
    ensures Linked(Put(h, p, a).pages, HeadOf(s), s)
  {
    LinkedFrame(h.pages, Put(h, p, a).pages, HeadOf(s), s);
  }

  lemma {:induction false} OutOfList(h: Heap, g: Shape, p: nat, a: nat, b: nat, i: nat)
    requires Inv(h, g) && p in h.pages && h.pages[p].inUse > 0 && b < BUCKETS && i < |g.full[b]| && g.full[b][i] == p
    ensures TakenOut(Unlinked(Put(h, p, a).pages, p), g, b, i)
    ensures HeadOf(Drop(g.full[b], i)) == if h.pages[p].prev == 0 then h.pages[p].next else h.full[b]
  {
    var pages, s := Put(h, p, a).pages, g.full[b];
    assert LinksOk(h, g, b);
    PutLinked(h, p, a, s);
    UnlinkKeeps(pages, s, i);
    forall c: nat | c < BUCKETS
      ensures Linked(Unlinked(pages, p), HeadOf(g.free[c]), g.free[c])
      ensures c != b ==> Linked(Unlinked(pages, p), HeadOf(g.full[c]), g.full[c])
    {
      assert LinksOk(h, g, c);
      ListsApart(h, g, b, c);
      PutLinked(h, p, a, g.free[c]);
      UnlinkOther(pages, s, i, g.free[c]);
      if c != b {
        PutLinked(h, p, a, g.full[c]);
        UnlinkOther(pages, s, i, g.full[c]);
      }
    }
  }

  /** After lines 118-121 every `next` link but the page's own is what it was. */
  lemma {:induction false} FiledLinks(h: Heap, p: nat, b: nat)
    requires p in h.pages && b < |h.free| == |h.full| && Misfiled(h, p, b).Done?
    ensures var (d, u, w) := (h.pages[p], Unlinked(h.pages, p), Misfiled(h, p, b).heap);
      && u.Keys == w.pages.Keys && (forall q :: q in u && q != p ==> w.pages[q].next == u[q].next)
      && w.free == h.free && w.words == h.words && p in w.pages && w.pages[p].prev == 0
      && w.full == (if d.prev == 0 then h.full[b := d.next] else h.full)[0 := p]
      && w.pages[p].next == (if d.prev == 0 then h.full[b := d.next] else h.full)[0]
      && w.pages[p] == d.(next := w.pages[p].next, prev := 0) && SameOthers(h.pages, w.pages, p)
  {
    RelinkSame(h.pages, p);
  }

  lemma {:induction false} MisfiledLists(h: Heap, g: Shape, p: nat, a: nat)
    requires Inv(h, g) && p in h.pages && h.pages[p].inUse == h.pages[p].total > 0
    requires h.pages[p].bucket < BUCKETS && Misfiled(Put(h, p, a), p, h.pages[p].bucket).Done?
    ensures Refiled(h, g, Misfiled(Put(h, p, a), p, h.pages[p].bucket).heap, p, a)
  {
    var (b, v) := (h.pages[p].bucket, Put(h, p, a));
    var w := Misfiled(v, p, b).heap;
    assert PageOk(h, g, p) && OnList(h, g, p) && FiledOk(h, g, b);
    assert p in g.full[b];
    var i := IndexIn(g.full[b], p);
    OutOfList(h, g, p, a, b, i);
    FiledLinks(v, p, b);
    var u := Unlinked(v.pages, p);
    forall c: nat | c < BUCKETS ensures Reads(w.pages, w.free[c], g.free[c]) {
      ListsApart(h, g, b, c);
      assert LinksOk(h, g, c);
      LinkedReads(u, w.pages, HeadOf(g.free[c]), g.free[c]);
    }
    forall c: nat | c < BUCKETS ensures Reads(w.pages, w.full[c], FullAfter(g, p, b, c)) {
      FullListAfter(h, g, w, u, p, b, c, i);
    }
  }

  lemma {:induction false} FullListAfter(h: Heap, g: Shape, w: Heap, u: Pages, p: nat, b: nat, c: nat, i: nat)
    requires Inv(h, g) && b < BUCKETS && c < BUCKETS && p in g.full[b] && i == IndexIn(g.full[b], p) && p in h.pages
    requires TakenOut(u, g, b, i)
    requires HeadOf(Drop(g.full[b], i)) == if h.pages[p].prev == 0 then h.pages[p].next else h.full[b]
    requires u.Keys == w.pages.Keys && p in u && p != 0 && forall q :: q in u && q != p ==> w.pages[q].next == u[q].next
    requires w.full == (if h.pages[p].prev == 0 then h.full[b := h.pages[p].next] else h.full)[0 := p]
    requires w.pages[p].next == (if h.pages[p].prev == 0 then h.full[b := h.pages[p].next] else h.full)[0]
    ensures Reads(w.pages, w.full[c], FullAfter(g, p, b, c))
  {
    var s := if c == b then Drop(g.full[b], i) else g.full[c];
    assert LinksOk(h, g, c) && LinksOk(h, g, b);
    ListsApart(h, g, b, c);
    assert p !in s;
    LinkedReads(u, w.pages, HeadOf(s), s);
    if c == 0 { ReadsPushed(w.pages, p, s); } else { assert [] + s == s; }
  }
}
