/** `avl_remove` (avl.c:56-108), as the code is written: which removals it carries out, which
dereference NULL, and which leave the parent's link on the removed node. */
module AvlRemove {
  import opened Seqs
  import opened AvlTree
  import opened AvlPath
  import opened AvlInsert

  datatype Outcome<E, A> =
    | Removed(tree: Tree<E, A>)
    | NullDereference
    | LostLink  // a left child with two children: line 290 writes the parent's right link

  /** Removing a node with at most one child (lines 63-70 and 93-103). `child` takes its place. */
  function Detach<E, A>(c: Ctx<E, A>, child: Tree<E, A>, upd: Update<E, A>): (r: Outcome<E, A>)
    requires SidesExact(c) && DepthsExact(child)
  {
    if c.Top? then (if child.Leaf? then Removed(Leaf) else NullDereference)
    else Removed(Bubble(c.up, Above(c, child), upd))
  }

  /** The successor a node with two children is replaced by, and where it hangs. */
  function Victim<E, A>(c: Ctx<E, A>, t: Tree<E, A>): (r: (Ctx<E, A>, Tree<E, A>))
    requires t.Branch? && t.right.Branch?
    ensures r.1.Branch? && r.1.left.Leaf? && !r.0.Top? && Plug(r.0, r.1) == Plug(c, t)
    ensures Before(r.0) == Before(c) + (InOrder(t.left) + [t.entry])
  {
    LeftmostBelow(InRight(c, t.left, t.entry, t.depth, t.aug), t.right);
    Leftmost(InRight(c, t.left, t.entry, t.depth, t.aug), t.right)
  }

  lemma {:induction false} LeftmostBelow<E, A>(c: Ctx<E, A>, t: Tree<E, A>)
    requires t.Branch?
    ensures var (vc, v) := Leftmost(c, t);
      && (!c.Top? ==> !vc.Top?)
      && InOrder(t) + After(c) == [v.entry] + (InOrder(v.right) + After(vc))
    decreases t
  {
    if t.left.Branch? {
      var c' := InLeft(c, t.entry, t.depth, t.aug, t.right);
      LeftmostBelow(c', t.left);
      assert InOrder(t) + After(c) == InOrder(t.left) + After(c');
    } else {
      assert InOrder(t) + After(c) == [t.entry] + (InOrder(t.right) + After(c));
    }
  }

  /** The whole tree once the successor has been taken out (line 79). */
  function WithoutVictim<E, A>(c: Ctx<E, A>, t: Tree<E, A>, upd: Update<E, A>): (r: Tree<E, A>)
    requires t.Branch? && t.right.Branch? && DepthsExact(Plug(c, t))
    ensures DepthsExact(r)
  {
    var (vc, v) := Victim(c, t);
    SidesOfExact(vc, v);
    Bubble(vc.up, Above(vc, v.right), upd)
  }

  /** Taking the successor out removes it and nothing else. */
  lemma {:induction false} WithoutVictimInOrder<E, A>(c: Ctx<E, A>, t: Tree<E, A>, upd: Update<E, A>)
    requires t.Branch? && t.right.Branch? && DepthsExact(Plug(c, t))
    ensures var (vc, v) := Victim(c, t);
      && InOrder(t.right) + After(c) == [v.entry] + (InOrder(v.right) + After(vc))
      && InOrder(WithoutVictim(c, t, upd)) ==
        (Before(c) + (InOrder(t.left) + [t.entry])) + (InOrder(v.right) + After(vc))
  {
    var (vc, v) := Victim(c, t);
    SidesOfExact(vc, v);
    LeftmostBelow(InRight(c, t.left, t.entry, t.depth, t.aug), t.right);
    HangInOrder(vc, v.right, upd);
  }

  lemma {:induction false} StillThere<E, A>(c: Ctx<E, A>, t: Tree<E, A>, upd: Update<E, A>)
    requires t.Branch? && t.right.Branch? && DepthsExact(Plug(c, t))
    ensures t.entry in InOrder(WithoutVictim(c, t, upd))
  {
    WithoutVictimInOrder(c, t, upd);
    var pre := Before(c) + (InOrder(t.left) + [t.entry]);
    assert pre[|pre| - 1] == t.entry;
    assert InOrder(WithoutVictim(c, t, upd))[|pre| - 1] == t.entry;
  }

  /** Where the node to remove is once its successor is gone: the climb may have moved it. */
  ghost function Refocus<E, A>(c: Ctx<E, A>, t: Tree<E, A>, upd: Update<E, A>): (r: (Ctx<E, A>, Tree<E, A>))
    requires t.Branch? && t.right.Branch? && DepthsExact(Plug(c, t))
    ensures Plug(r.0, r.1) == WithoutVictim(c, t, upd) && r.1.Branch? && r.1.entry == t.entry
    ensures SidesExact(r.0) && DepthsExact(r.1)
  {
    StillThere(c, t, upd);
    var r := Locate(Top, WithoutVictim(c, t, upd), t.entry);
    SidesOfExact(r.0, r.1);
    r
  }

  /** `s` with the node `v` in place of its root. */
  function Impersonate<E, A>(s: Tree<E, A>, v: Tree<E, A>): (r: Tree<E, A>)
    requires s.Branch? && v.Branch?
    ensures r.Branch?
  {
    s.(entry := v.entry, depth := v.depth, aug := v.aug)
  }

  /** Lines 82-107: the successor `v` takes the place of the root of `s`. */
  ghost function TakeOver<E, A>(c: Ctx<E, A>, s: Tree<E, A>, v: Tree<E, A>, upd: Update<E, A>): (r: Outcome<E, A>)
    requires s.Branch? && v.Branch? && SidesExact(c) && DepthsExact(s)
    ensures r.Removed? ==> DepthsExact(r.tree)
  {
    if s.left.Leaf? || s.right.Leaf? then NullDereference
    else if c.InLeft? then LostLink
    else Removed(Bubble(c, Impersonate(s, v), upd))
  }

  /** `avl_remove` of the node in focus. */
  ghost function Remove<E, A>(c: Ctx<E, A>, t: Tree<E, A>, upd: Update<E, A>): (r: Outcome<E, A>)
    requires t.Branch? && DepthsExact(Plug(c, t))
    ensures r.Removed? ==> DepthsExact(r.tree)
  {
    SidesOfExact(c, t);
    if t.left.Leaf? || t.right.Leaf? then
      Detach(c, if t.left.Branch? then t.left else t.right, upd)
    else
      var (c', s) := Refocus(c, t, upd);
      TakeOver(c', s, Victim(c, t).1, upd)
  }

  lemma {:induction false} SplitOnce<E>(a: seq<E>, x: E, b: seq<E>, a': seq<E>, b': seq<E>)
    requires a + [x] + b == a' + [x] + b' && Distinct(a + [x] + b)
    ensures a == a' && b == b'
  {
    var s := a + [x] + b;
    assert s[|a|] == x && (a' + [x] + b')[|a'|] == x;
    assert |a| == |a'|;
    assert a == s[..|a|] && a' == (a' + [x] + b')[..|a'|];
    assert b == s[|a| + 1..] && b' == (a' + [x] + b')[|a'| + 1..];
  }

  lemma {:induction false} DistinctWithout<E>(pre: seq<E>, l: seq<E>, x: E, r: seq<E>, post: seq<E>, v: E, b: seq<E>)
    requires r + post == [v] + b && Distinct(pre + (l + [x] + r) + post)
    ensures Distinct((pre + (l + [x])) + b)
  {
    var s, t, k := pre + (l + [x] + r) + post, (pre + (l + [x])) + b, |pre| + |l| + 1;
    assert s == (pre + (l + [x])) + (r + post);
    forall i, j | 0 <= i < j < |t| ensures t[i] != t[j] {
      assert t[i] == s[if i < k then i else i + 1] && t[j] == s[if j < k then j else j + 1];
    }
  }

  /** In a sequence where `x` occurs once, putting `v` in its place is the same wherever the
  sequence is cut. */
  lemma {:induction false} ReplaceOnce<E>(pre: seq<E>, l: seq<E>, x: E, b: seq<E>,
                                         pre': seq<E>, l': seq<E>, r': seq<E>, post': seq<E>, v: E)
    requires (pre + (l + [x])) + b == pre' + (l' + [x] + r') + post'
    requires Distinct((pre + (l + [x])) + b)
    ensures pre' + (l' + [v] + r') + post' == pre + l + ([v] + b)
  {
    var s := (pre + (l + [x])) + b;
    assert s == (pre + l) + [x] + b;
    assert s == (pre' + l') + [x] + (r' + post');
    SplitOnce(pre + l, x, b, pre' + l', r' + post');
    assert pre' + (l' + [v] + r') + post' == (pre' + l') + ([v] + (r' + post'));
  }

  /** Every removal the code carries out takes out exactly the node it was given: the rest keep
  their order, and every cached depth is the true height. */
  lemma {:induction false} RemoveInOrder<E, A>(c: Ctx<E, A>, t: Tree<E, A>, upd: Update<E, A>)
    requires t.Branch? && DepthsExact(Plug(c, t)) && Distinct(InOrder(Plug(c, t)))
    requires Remove(c, t, upd).Removed?
    ensures InOrder(Remove(c, t, upd).tree) == Before(c) + InOrder(t.left) + (InOrder(t.right) + After(c))
  {
    if t.left.Leaf? || t.right.Leaf? {
      DetachInOrder(c, t, upd);
    } else {
      ReplaceInOrder(c, t, upd);
    }
  }

  /** In terms of positions: the entry at the node's place is gone. */
  lemma {:induction false} RemoveAtPlace<E, A>(c: Ctx<E, A>, t: Tree<E, A>, upd: Update<E, A>)
    requires t.Branch? && DepthsExact(Plug(c, t)) && Distinct(InOrder(Plug(c, t)))
    requires Remove(c, t, upd).Removed?
    ensures |Before(c)| + |InOrder(t.left)| < |InOrder(Plug(c, t))|
    ensures InOrder(Remove(c, t, upd).tree) == Without(InOrder(Plug(c, t)), |Before(c)| + |InOrder(t.left)|)
  {
    RemoveInOrder(c, t, upd);
    PlugInOrder(c, t);
    WithoutMiddle(Before(c), InOrder(t.left), t.entry, InOrder(t.right), After(c));
  }

  lemma {:induction false} DetachInOrder<E, A>(c: Ctx<E, A>, t: Tree<E, A>, upd: Update<E, A>)
    requires t.Branch? && (t.left.Leaf? || t.right.Leaf?) && DepthsExact(Plug(c, t))
    requires Remove(c, t, upd).Removed?
    ensures InOrder(Remove(c, t, upd).tree) == Before(c) + InOrder(t.left) + (InOrder(t.right) + After(c))
  {
    SidesOfExact(c, t);
    var child := if t.left.Branch? then t.left else t.right;
    if !c.Top? {
      HangInOrder(c, child, upd);
    }
    OneIsEmpty(Before(c), InOrder(t.left), InOrder(t.right), After(c), InOrder(child));
  }

  lemma {:induction false} OneIsEmpty<E>(pre: seq<E>, l: seq<E>, r: seq<E>, post: seq<E>, child: seq<E>)
    requires (l == [] && child == r) || (r == [] && child == l)
    ensures pre + (child + post) == pre + l + (r + post)
  {
  }

  lemma {:induction false} ReplaceInOrder<E, A>(c: Ctx<E, A>, t: Tree<E, A>, upd: Update<E, A>)
    requires t.Branch? && t.left.Branch? && t.right.Branch?
    requires DepthsExact(Plug(c, t)) && Distinct(InOrder(Plug(c, t)))
    requires Remove(c, t, upd).Removed?
    ensures InOrder(Remove(c, t, upd).tree) == Before(c) + InOrder(t.left) + (InOrder(t.right) + After(c))
  {
    var (vc, v) := Victim(c, t);
    var b := InOrder(v.right) + After(vc);
    WithoutVictimInOrder(c, t, upd);
    var (c', s) := Refocus(c, t, upd);
    PlugInOrder(c', s);
    PlugInOrder(c, t);
    DistinctWithout(Before(c), InOrder(t.left), t.entry, InOrder(t.right), After(c), v.entry, b);
    ReplaceOnce(Before(c), InOrder(t.left), t.entry, b, Before(c'), InOrder(s.left), InOrder(s.right), After(c'),
      v.entry);
    BubbleInOrder(c', Impersonate(s, v), upd);
  }
}
