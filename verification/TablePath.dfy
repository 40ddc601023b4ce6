/** The tables on the way to a page, and how many of them are missing. */
module TablePath {
  import opened PageEntry
  import opened PageTree

  /** The tables on the way to a page, below the PML4. */
  ghost function PathKeys(page: nat): set<Key> { set d: nat | 1 <= d <= 3 :: TableOf(page, d) }

  lemma {:induction false} PathKeysAre(page: nat)
    ensures PathKeys(page) == {TableOf(page, 1), TableOf(page, 2), TableOf(page, 3)}
  {
  }

  ghost function Missing(tab: map<Key, nat>, keys: set<Key>): nat { |keys - tab.Keys| }

  lemma {:induction false} OnPath(page: nat) returns (top: Key, one: Key, two: Key, three: Key)
    requires page < PAGES
    ensures top == Key(0, 0) && one.depth == 1 && two.depth == 2 && three == TableOf(page, 3)
    ensures one == Child(top, IndexAt(page, 0)) && two == Child(one, IndexAt(page, 1)) &&
      three == Child(two, IndexAt(page, 2))
    ensures {} + {one} <= PathKeys(page) && {} + {one} + {two} <= PathKeys(page)
    ensures {} + {one} + {two} + {three} == PathKeys(page)
  {
    PathStep(page, 0);
    PathStep(page, 1);
    PathStep(page, 2);
    PathKeysAre(page);
    top, one, two, three := TableOf(page, 0), TableOf(page, 1), TableOf(page, 2), TableOf(page, 3);
  }

  lemma {:induction false} MissingMore(tab: map<Key, nat>, tab': map<Key, nat>, a: set<Key>, b: set<Key>)
    requires tab'.Keys == tab.Keys + a
    ensures Missing(tab, a + b) == Missing(tab, a) + Missing(tab', b)
  {
    KeysSplit(tab.Keys, a, b);
  }

  lemma {:induction false} KeysSplit(k: set<Key>, a: set<Key>, b: set<Key>)
    ensures |(a + b) - k| == |a - k| + |b - (k + a)|
  {
    var x, y := a - k, b - (k + a);
    assert (a + b) - k == x + y;
    assert x !! y;
  }

  lemma {:induction false} UnionAssoc(k: set<Key>, a: set<Key>, b: set<Key>)
    ensures k + a + b == k + (a + b)
  {
  }

  lemma {:induction false} MissingMono(tab: map<Key, nat>, a: set<Key>, b: set<Key>)
    requires a <= b
    ensures Missing(tab, a) <= Missing(tab, b)
  {
    KeysSplit(tab.Keys, a, b);
    assert a + b == b;
  }

  const LEVELS: nat := 3  // of tables below the PML4

  /** How many tables are missing on the way to a page, down to this depth. */
  ghost function Needs(tab: map<Key, nat>, page: nat, depth: nat): nat
    requires depth <= 3
  {
    if depth == 0 then 0 else Needs(tab, page, depth - 1) + if TableOf(page, depth) in tab then 0 else 1
  }

  lemma {:induction false} NeedsAtMost(tab: map<Key, nat>, page: nat, depth: nat)
    requires depth <= 3
    ensures Needs(tab, page, depth) <= depth
  {
    if depth > 0 { NeedsAtMost(tab, page, depth - 1); }
  }

  lemma {:induction false} OneOf(k: set<Key>, x: Key)
    ensures |{x} - k| == if x in k then 0 else 1
  {
    assert {x} - k == if x in k then {} else {x};
  }

  lemma {:induction false} ThreeOf(k: set<Key>, x: Key, y: Key, z: Key)
    requires x != y && y != z && x != z
    ensures |{x, y, z} - k| == (if x in k then 0 else 1) + (if y in k then 0 else 1) + (if z in k then 0 else 1)
  {
    OneOf(k, x);
    OneOf(k, y);
    OneOf(k, z);
    var a, b, c := {x} - k, {y} - k, {z} - k;
    assert {x, y, z} - k == a + b + c;
    assert a !! b && (a + b) !! c;
  }

  lemma {:induction false} NeedsMissing(tab: map<Key, nat>, page: nat)
    ensures Needs(tab, page, LEVELS) == Missing(tab, PathKeys(page))
  {
    assert Needs(tab, page, 1) == Needs(tab, page, 0) + if TableOf(page, 1) in tab then 0 else 1;
    assert Needs(tab, page, 2) == Needs(tab, page, 1) + if TableOf(page, 2) in tab then 0 else 1;
    ThreeOf(tab.Keys, TableOf(page, 1), TableOf(page, 2), TableOf(page, 3));
    PathKeysAre(page);
  }
}
