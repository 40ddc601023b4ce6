/** Doubly linked lists of heap pages and the chains of free blocks inside them, as `memory/kmalloc.c`
keeps them: links are addresses, 0 is NULL. */
module PageLists {
  import opened Seqs
  /** `kmalloc_page_descriptor_t`. */
  datatype Desc = Desc(bucket: nat, inUse: nat, total: nat, freeList: nat, next: nat, prev: nat)

  type Pages = map<nat, Desc>

  function HeadOf(s: seq<nat>): nat { if s == [] then 0 else s[0] }

  function After(s: seq<nat>, i: nat): nat { if i + 1 < |s| then s[i + 1] else 0 }

  function Before(s: seq<nat>, i: nat): nat { if 0 < i <= |s| then s[i - 1] else 0 }

  /** Page `i` of the list is where the list says, and points to its neighbours. */
  ghost predicate LinkedAt(pages: Pages, s: seq<nat>, i: nat)
    requires i < |s|
  {
    s[i] != 0 && s[i] in pages && pages[s[i]].next == After(s, i) && pages[s[i]].prev == Before(s, i)
  }

  ghost predicate Linked(pages: Pages, head: nat, s: seq<nat>) {
    head == HeadOf(s) && Distinct(s) && forall i: nat {:trigger LinkedAt(pages, s, i)} ::
      i < |s| ==> LinkedAt(pages, s, i)
  }

  /** The list without its element at position `i`. */
  function Drop(s: seq<nat>, i: nat): seq<nat>
    requires i < |s|
  {
    s[..i] + s[i + 1..]
  }

  /** Take page `x` out of its list: its neighbours are pointed at each other. */
  function Unlinked(pages: Pages, x: nat): Pages
    requires x in pages
  {
    var d := pages[x];
    var one := if d.prev != 0 && d.prev in pages then pages[d.prev := pages[d.prev].(next := d.next)] else pages;
    if d.next != 0 && d.next in one then one[d.next := one[d.next].(prev := d.prev)] else one
  }

  /** Put page `x` before the head of a list. */
  function Pushed(pages: Pages, head: nat, x: nat): Pages
    requires x in pages
  {
    var one := if head != 0 && head in pages then pages[head := pages[head].(prev := x)] else pages;
    one[x := one[x].(next := head, prev := 0)]
  }

  /** A list only depends on the links of its own pages. */
  lemma {:induction false} LinkedFrame(pages: Pages, other: Pages, head: nat, s: seq<nat>)
    requires Linked(pages, head, s)
    requires forall p :: p in s && p in pages ==>
      p in other && other[p].next == pages[p].next && other[p].prev == pages[p].prev
    ensures Linked(other, head, s)
  {
    forall i: nat | i < |s| ensures LinkedAt(other, s, i) {
      assert LinkedAt(pages, s, i);
    }
  }

  lemma {:induction false} UnlinkAt(pages: Pages, s: seq<nat>, i: nat, k: nat)
    requires Linked(pages, HeadOf(s), s) && i < |s| && s[i] in pages && k < |Drop(s, i)|
    ensures LinkedAt(Unlinked(pages, s[i]), Drop(s, i), k)
  {
    var t, x := Drop(s, i), s[i];
    var j: nat := if k < i then k else k + 1;
    assert LinkedAt(pages, s, i) && LinkedAt(pages, s, j);
    assert t[k] == s[j];
    if i > 0 { assert LinkedAt(pages, s, i - 1); }
    if i + 1 < |s| { assert LinkedAt(pages, s, i + 1); }
  }

  /** Taking a page out leaves the rest of its list linked. */
  lemma {:induction false} UnlinkKeeps(pages: Pages, s: seq<nat>, i: nat)
    requires Linked(pages, HeadOf(s), s) && i < |s| && s[i] in pages
    ensures Linked(Unlinked(pages, s[i]), HeadOf(Drop(s, i)), Drop(s, i))
    ensures HeadOf(Drop(s, i)) == if pages[s[i]].prev == 0 then pages[s[i]].next else HeadOf(s)
  {
    assert LinkedAt(pages, s, i);
    if i > 0 { assert LinkedAt(pages, s, i - 1); }
    forall k: nat | k < |Drop(s, i)| ensures LinkedAt(Unlinked(pages, s[i]), Drop(s, i), k) {
      UnlinkAt(pages, s, i, k);
    }
  }

  /** Pushing a page onto a list it is not on. */
  lemma {:induction false} PushKeeps(pages: Pages, s: seq<nat>, x: nat)
    requires Linked(pages, HeadOf(s), s) && x in pages && x != 0 && x !in s
    ensures Linked(Pushed(pages, HeadOf(s), x), x, [x] + s)
  {
    var t, q := [x] + s, Pushed(pages, HeadOf(s), x);
    forall k: nat | k < |t| ensures LinkedAt(q, t, k) {
      if k > 0 {
        assert LinkedAt(pages, s, k - 1);
        assert t[k] == s[k - 1];
      }
      if s != [] { assert LinkedAt(pages, s, 0); }
    }
  }

  /** Neither touches a list with no page in common. */
  lemma {:induction false} UnlinkOther(pages: Pages, s: seq<nat>, i: nat, t: seq<nat>)
    requires Linked(pages, HeadOf(s), s) && i < |s| && s[i] in pages && Linked(pages, HeadOf(t), t) && forall p ::
      p in t ==> p !in s
    ensures Linked(Unlinked(pages, s[i]), HeadOf(t), t)
  {
    assert LinkedAt(pages, s, i);
    assert After(s, i) != 0 ==> After(s, i) in s;
    assert Before(s, i) != 0 ==> Before(s, i) in s;
    LinkedFrame(pages, Unlinked(pages, s[i]), HeadOf(t), t);
  }

  lemma {:induction false} PushOther(pages: Pages, s: seq<nat>, x: nat, t: seq<nat>)
    requires Linked(pages, HeadOf(s), s) && x in pages && Linked(pages, HeadOf(t), t)
    requires x !in t && forall p :: p in t ==> p !in s
    ensures Linked(Pushed(pages, HeadOf(s), x), HeadOf(t), t)
  {
    assert HeadOf(s) != 0 ==> HeadOf(s) in s;
    LinkedFrame(pages, Pushed(pages, HeadOf(s), x), HeadOf(t), t);
  }

  // ----- the chain of free blocks -----

  ghost predicate ChainAt(words: map<nat, nat>, s: seq<nat>, i: nat)
    requires i < |s|
  {
    s[i] in words && words[s[i]] == After(s, i)
  }

  /** From `head` on, each free block holds the address of the next. */
  ghost predicate Chain(words: map<nat, nat>, head: nat, s: seq<nat>) {
    head == HeadOf(s) && Distinct(s) && forall i: nat {:trigger ChainAt(words, s, i)} ::
      i < |s| ==> ChainAt(words, s, i)
  }

  lemma {:induction false} ChainFrame(words: map<nat, nat>, other: map<nat, nat>, head: nat, s: seq<nat>)
    requires Chain(words, head, s) && forall a :: a in s && a in words ==> a in other && other[a] == words[a]
    ensures Chain(other, head, s)
  {
    forall i: nat | i < |s| ensures ChainAt(other, s, i) {
      assert ChainAt(words, s, i);
    }
  }

  lemma {:induction false} ChainPop(words: map<nat, nat>, s: seq<nat>)
    requires Chain(words, HeadOf(s), s) && s != []
    ensures s[0] in words && Chain(words, words[s[0]], s[1..])
  {
    assert ChainAt(words, s, 0);
    forall i: nat | i < |s[1..]| ensures ChainAt(words, s[1..], i) {
      assert ChainAt(words, s, i + 1);
    }
  }

  lemma {:induction false} ChainPush(words: map<nat, nat>, s: seq<nat>, a: nat)
    requires Chain(words, HeadOf(s), s) && a !in s
    ensures Chain(words[a := HeadOf(s)], a, [a] + s)
  {
    var t, w := [a] + s, words[a := HeadOf(s)];
    forall i: nat | i < |t| ensures ChainAt(w, t, i) {
      if i > 0 { assert ChainAt(words, s, i - 1); }
    }
  }
}
