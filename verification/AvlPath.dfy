/** Positions inside an AVL tree. A context is the chain of parents above a node together with
the subtrees hanging off it: what the parent pointers of `avl_node_t` give access to. */
module AvlPath {
  import opened Seqs
  import opened AvlTree

  datatype Ctx<E, A> =
    | Top
    | InLeft(up: Ctx<E, A>, entry: E, depth: int, aug: A, right: Tree<E, A>)
    | InRight(up: Ctx<E, A>, left: Tree<E, A>, entry: E, depth: int, aug: A)

  /** The subtree of the parent, with `t` in the position `c` describes. */
  function Above<E, A>(c: Ctx<E, A>, t: Tree<E, A>): (r: Tree<E, A>)
    requires !c.Top?
    ensures r.Branch?
  {
    match c
    case InLeft(up, e, d, a, right) => Branch(t, e, d, a, right)
    case InRight(up, left, e, d, a) => Branch(left, e, d, a, t)
  }

  /** The whole tree. */
  function Plug<E, A>(c: Ctx<E, A>, t: Tree<E, A>): Tree<E, A> {
    if c.Top? then t else Plug(c.up, Above(c, t))
  }

  /** The entries left of the position, in order. */
  function Before<E, A>(c: Ctx<E, A>): seq<E> {
    match c
    case Top => []
    case InLeft(up, e, d, a, right) => Before(up)
    case InRight(up, left, e, d, a) => Before(up) + (InOrder(left) + [e])
  }

  /** The entries right of the position, in order. */
  function After<E, A>(c: Ctx<E, A>): seq<E> {
    match c
    case Top => []
    case InLeft(up, e, d, a, right) => [e] + InOrder(right) + After(up)
    case InRight(up, left, e, d, a) => After(up)
  }

  lemma {:induction false} PlugInOrder<E, A>(c: Ctx<E, A>, t: Tree<E, A>)
    ensures InOrder(Plug(c, t)) == Before(c) + InOrder(t) + After(c)
  {
    if !c.Top? {
      PlugInOrder(c.up, Above(c, t));
      if c.InLeft? {
        Assoc(Before(c.up), InOrder(t), [c.entry] + InOrder(c.right), After(c.up));
        assert InOrder(t) + [c.entry] + InOrder(c.right) == InOrder(t) + ([c.entry] + InOrder(c.right));
      } else {
        Assoc(Before(c.up), InOrder(c.left) + [c.entry], InOrder(t), After(c.up));
      }
    }
  }

  lemma {:induction false} Assoc<E>(a: seq<E>, b: seq<E>, c: seq<E>, d: seq<E>)
    ensures a + (b + c) + d == (a + b) + c + d
    ensures a + (b + c) + d == a + b + (c + d)
  {
  }

  /** The subtrees beside the path have exact depths. The depths on the path are not constrained. */
  ghost predicate SidesExact<E, A>(c: Ctx<E, A>) {
    match c
    case Top => true
    case InLeft(up, e, d, a, right) => DepthsExact(right) && SidesExact(up)
    case InRight(up, left, e, d, a) => DepthsExact(left) && SidesExact(up)
  }

  lemma {:induction false} SidesOfExact<E, A>(c: Ctx<E, A>, t: Tree<E, A>)
    requires DepthsExact(Plug(c, t))
    ensures DepthsExact(t) && SidesExact(c)
  {
    if !c.Top? { SidesOfExact(c.up, Above(c, t)); }
  }

  /** `avl_bubble_update_and_balance`: settle the node at this position, then each ancestor. */
  function Bubble<E, A>(c: Ctx<E, A>, t: Tree<E, A>, upd: Update<E, A>): (r: Tree<E, A>)
    requires t.Branch? && DepthsExact(t.left) && DepthsExact(t.right) && SidesExact(c)
    ensures r.Branch? && DepthsExact(r)
    decreases c
  {
    if c.Top? then Settle(t, upd) else Bubble(c.up, Above(c, Settle(t, upd)), upd)
  }

  /** Climbing to the root, whatever the tree's balance, reorders nothing. */
  lemma {:induction false} BubbleInOrder<E, A>(c: Ctx<E, A>, t: Tree<E, A>, upd: Update<E, A>)
    requires t.Branch? && DepthsExact(t.left) && DepthsExact(t.right) && SidesExact(c)
    ensures InOrder(Bubble(c, t, upd)) == Before(c) + InOrder(t) + After(c)
    decreases c
  {
    SettleKeeps(t, upd);
    if !c.Top? {
      var s := Settle(t, upd);
      BubbleInOrder(c.up, Above(c, s), upd);
      PlugInOrder(c.up, Above(c, s));
      PlugInOrder(c, s);
    }
  }

  /** Hanging `child` at a position and climbing from its parent. */
  lemma {:induction false} HangInOrder<E, A>(c: Ctx<E, A>, child: Tree<E, A>, upd: Update<E, A>)
    requires !c.Top? && DepthsExact(child) && SidesExact(c)
    ensures InOrder(Bubble(c.up, Above(c, child), upd)) == Before(c) + (InOrder(child) + After(c))
  {
    var whole := Plug(c, child);
    assert whole == Plug(c.up, Above(c, child));
    BubbleInOrder(c.up, Above(c, child), upd);
    PlugInOrder(c.up, Above(c, child));
    PlugInOrder(c, child);
    Assoc3(Before(c), InOrder(child), After(c));
  }

  lemma {:induction false} Assoc3<E>(a: seq<E>, b: seq<E>, c: seq<E>)
    ensures a + b + c == a + (b + c)
  {
  }

  /** Where `avl_get_successor` ends up when it goes right once and then left: the leftmost node. */
  function Leftmost<E, A>(c: Ctx<E, A>, t: Tree<E, A>): (r: (Ctx<E, A>, Tree<E, A>))
    requires t.Branch?
    ensures r.1.Branch? && r.1.left.Leaf? && Plug(r.0, r.1) == Plug(c, t)
    ensures Before(r.0) == Before(c)
    decreases t
  {
    if t.left.Leaf? then (c, t)
    else Leftmost(InLeft(c, t.entry, t.depth, t.aug, t.right), t.left)
  }

  /** Where going left once and then right ends up: the rightmost node. */
  function Rightmost<E, A>(c: Ctx<E, A>, t: Tree<E, A>): (r: (Ctx<E, A>, Tree<E, A>))
    requires t.Branch?
    ensures r.1.Branch? && r.1.right.Leaf? && Plug(r.0, r.1) == Plug(c, t)
    ensures !c.Top? ==> !r.0.Top?
    decreases t
  {
    if t.right.Leaf? then (c, t)
    else Rightmost(InRight(c, t.left, t.entry, t.depth, t.aug), t.right)
  }

  lemma {:induction false} RightmostPlace<E, A>(c: Ctx<E, A>, t: Tree<E, A>)
    requires t.Branch?
    ensures var (d, s) := Rightmost(c, t); |Before(d)| + |InOrder(s.left)| == |Before(c)| + |InOrder(t)| - 1
    decreases t
  {
    if t.right.Branch? { RightmostPlace(InRight(c, t.left, t.entry, t.depth, t.aug), t.right); }
  }

  /** The subtree of the last entry. */
  function LastOf<E, A>(t: Tree<E, A>): (r: Tree<E, A>)
    requires t.Branch?
    ensures r.Branch? && r.right.Leaf?
  {
    if t.right.Leaf? then t else LastOf(t.right)
  }

  lemma {:induction false} RightmostIs<E, A>(c: Ctx<E, A>, t: Tree<E, A>)
    requires t.Branch?
    ensures Rightmost(c, t).1 == LastOf(t) && LastOf(t).entry in InOrder(t)
    decreases t
  {
    if t.right.Branch? { RightmostIs(InRight(c, t.left, t.entry, t.depth, t.aug), t.right); }
  }

  /** The position of an entry of the tree. */
  ghost function Locate<E, A>(c: Ctx<E, A>, t: Tree<E, A>, e: E): (r: (Ctx<E, A>, Tree<E, A>))
    requires e in InOrder(t)
    ensures r.1.Branch? && r.1.entry == e && Plug(r.0, r.1) == Plug(c, t)
    decreases t
  {
    if t.entry == e then (c, t)
    else if e in InOrder(t.left) then Locate(InLeft(c, t.entry, t.depth, t.aug, t.right), t.left, e)
    else Locate(InRight(c, t.left, t.entry, t.depth, t.aug), t.right, e)
  }

  /** The focus on in-order position `k`, found from the top. */
  function FocusAt<E, A>(c: Ctx<E, A>, t: Tree<E, A>, k: int): (r: (Ctx<E, A>, Tree<E, A>))
    requires 0 <= k < |InOrder(t)|
    decreases t
  {
    var n := |InOrder(t.left)|;
    if k < n then FocusAt(InLeft(c, t.entry, t.depth, t.aug, t.right), t.left, k)
    else if k == n then (c, t)
    else FocusAt(InRight(c, t.left, t.entry, t.depth, t.aug), t.right, k - n - 1)
  }

  lemma {:induction false} FocusFromTop<E, A>(c: Ctx<E, A>, t: Tree<E, A>, k: int)
    requires 0 <= k < |InOrder(t)|
    ensures |Before(c)| + k < |InOrder(Plug(c, t))|
    ensures FocusAt(Top, Plug(c, t), |Before(c)| + k) == FocusAt(c, t, k)
  {
    PlugInOrder(c, t);
    if !c.Top? {
      FocusFromTop(c.up, Above(c, t), (if c.InLeft? then 0 else |InOrder(c.left)| + 1) + k);
    }
  }

  /** A focus is determined by its in-order position. */
  lemma {:induction false} FocusUnique<E, A>(c: Ctx<E, A>, s: Tree<E, A>, c': Ctx<E, A>, s': Tree<E, A>)
    requires s.Branch? && s'.Branch? && Plug(c, s) == Plug(c', s')
    requires |Before(c)| + |InOrder(s.left)| == |Before(c')| + |InOrder(s'.left)|
    ensures c == c' && s == s'
  {
    FocusFromTop(c, s, |InOrder(s.left)|);
    FocusFromTop(c', s', |InOrder(s'.left)|);
  }

  lemma {:induction false} FocusShape<E, A>(c: Ctx<E, A>, t: Tree<E, A>, k: int)
    requires 0 <= k < |InOrder(t)|
    ensures var (d, s) := FocusAt(c, t, k);
      && s.Branch? && s.entry == InOrder(t)[k] && Plug(d, s) == Plug(c, t)
      && |Before(d)| + |InOrder(s.left)| == |Before(c)| + k
    decreases t
  {
    var n := |InOrder(t.left)|;
    if k < n {
      FocusShape(InLeft(c, t.entry, t.depth, t.aug, t.right), t.left, k);
    } else if k > n {
      FocusShape(InRight(c, t.left, t.entry, t.depth, t.aug), t.right, k - n - 1);
    }
  }

  lemma {:induction false} FocusFirst<E, A>(c: Ctx<E, A>, t: Tree<E, A>)
    requires t.Branch?
    ensures FocusAt(c, t, 0) == Leftmost(c, t)
    decreases t
  {
    if t.left.Branch? { FocusFirst(InLeft(c, t.entry, t.depth, t.aug, t.right), t.left); }
  }

  lemma {:induction false} FocusLast<E, A>(c: Ctx<E, A>, t: Tree<E, A>)
    requires t.Branch?
    ensures FocusAt(c, t, |InOrder(t)| - 1) == Rightmost(c, t)
    decreases t
  {
    if t.right.Branch? { FocusLast(InRight(c, t.left, t.entry, t.depth, t.aug), t.right); }
  }

  /** Neighbours in order: the later one is the first of the earlier one's right subtree, or the earlier
  one is the last of the later one's left subtree. */
  lemma {:induction false} Adjacent<E, A>(c: Ctx<E, A>, t: Tree<E, A>, k: int)
    requires 0 <= k < |InOrder(t)| - 1
    ensures var ((d, s), (e, n)) := (FocusAt(c, t, k), FocusAt(c, t, k + 1));
      && s.Branch? && n.Branch?
      && (s.right.Branch? ==> (e, n) == Leftmost(InRight(d, s.left, s.entry, s.depth, s.aug), s.right))
      && (s.right.Leaf? ==> n.left.Branch? && (d, s) == Rightmost(InLeft(e, n.entry, n.depth, n.aug, n.right), n.left))
    decreases t
  {
    var l, r := InLeft(c, t.entry, t.depth, t.aug, t.right), InRight(c, t.left, t.entry, t.depth, t.aug);
    var n := |InOrder(t.left)|;
    if k + 1 < n {
      Adjacent(l, t.left, k);
    } else if k + 1 == n {
      FocusLast(l, t.left);
    } else if k == n {
      FocusFirst(r, t.right);
    } else {
      Adjacent(r, t.right, k - n - 1);
    }
  }

  /** Where entries occur once, looking one up ends at the position it is at. */
  lemma {:induction false} LocateIs<E, A>(c: Ctx<E, A>, s: Tree<E, A>)
    requires s.Branch? && Distinct(InOrder(Plug(c, s)))
    ensures s.entry in InOrder(Plug(c, s)) && Locate(Top, Plug(c, s), s.entry) == (c, s)
  {
    var t := Plug(c, s);
    PlugInOrder(c, s);
    var k := |Before(c)| + |InOrder(s.left)|;
    assert InOrder(t)[k] == s.entry;
    var (d, u) := Locate(Top, t, s.entry);
    PlugInOrder(d, u);
    assert InOrder(t)[|Before(d)| + |InOrder(u.left)|] == u.entry;
    FocusUnique(c, s, d, u);
  }
}
