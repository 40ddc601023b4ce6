/** The walks of `common/ds/avl.c` that follow links: neighbours, search, and the climb that
updates and rebalances every ancestor. */
module AvlWalks {
  import opened AvlTree
  import opened AvlPath
  import opened AvlInsert
  import opened AvlNodes

  ghost function RootOf<D, A>(t: Shape<D, A>): Node?<D, A> {
    if t.Leaf? then null else t.entry.node
  }

  ghost function ParentOf<D, A>(c: Place<D, A>): Node?<D, A> {
    if c.Top? then null else c.entry.node
  }

  /** `t` hangs at position `c`: the heap holds both and they share no node. */
  ghost predicate At<D, A>(c: Place<D, A>, t: Shape<D, A>)
    reads CtxNodes(c), Nodes(t)
  {
    && CtxRep(c, RootOf(t), ParentOf(c)) && Rep(t, RootOf(t), ParentOf(c))
    && CtxNodes(c) !! Nodes(t)
  }

  /** Moving the focus one level up. */
  lemma {:induction false} AtAbove<D, A>(c: Place<D, A>, t: Shape<D, A>)
    requires !c.Top?
    ensures At(c, t) <==> At(c.up, Above(c, t))
    ensures CtxNodes(c) + Nodes(t) == CtxNodes(c.up) + Nodes(Above(c, t))
  {
    var s := Above(c, t);
    assert Nodes(s) == Nodes(s.left) + {s.entry.node} + Nodes(s.right);
    if At(c, t) {
      var x := s.entry.node;
      assert CtxRep(c.up, x, x.parent);
      if c.InLeft? {
        assert x.left == RootOf(t) && Rep(t, x.left, x);
        assert Rep(s, x, ParentOf(c.up));
      } else {
        assert x.right == RootOf(t) && Rep(t, x.right, x);
        assert Rep(s, x, ParentOf(c.up));
      }
    }
    if At(c.up, s) {
      var x := s.entry.node;
      assert Rep(s.left, x.left, x) && Rep(s.right, x.right, x);
      assert At(c, t);
    }
  }

  /** A well-linked tree can be focused on any of its positions, and a focus is a whole tree. */
  lemma {:induction false} AtPlug<D, A>(c: Place<D, A>, t: Shape<D, A>)
    ensures At(c, t) <==> Rep(Plug(c, t), RootOf(Plug(c, t)), null)
    ensures Nodes(Plug(c, t)) == CtxNodes(c) + Nodes(t)
  {
    if !c.Top? {
      AtAbove(c, t);
      AtPlug(c.up, Above(c, t));
    }
  }

  lemma {:induction false} CtxNodesAllocated<D, A>(c: Place<D, A>)
    ensures forall n :: n in CtxNodes(c) ==> allocated(n)
  {
    match c {
      case Top =>
      case InLeft(up, e, d, a, right) =>
        CtxNodesAllocated(up);
        NodesAllocated(right);
      case InRight(up, left, e, d, a) =>
        CtxNodesAllocated(up);
        NodesAllocated(left);
    }
  }

  // ----- stores to a payload -----

  lemma {:induction false} PlugSetAt<E, A>(c: Ctx<E, A>, t: Tree<E, A>, k: int, x: E)
    requires 0 <= k < |InOrder(t)|
    ensures |Before(c)| + k < |InOrder(Plug(c, t))|
    ensures Plug(c, SetAt(t, k, x)) == SetAt(Plug(c, t), |Before(c)| + k, x)
  {
    PlugInOrder(c, t);
    if !c.Top? {
      var off := if c.InLeft? then 0 else |InOrder(c.left)| + 1;
      assert Above(c, SetAt(t, k, x)) == SetAt(Above(c, t), off + k, x);
      PlugSetAt(c.up, Above(c, t), off + k, x);
    }
  }

  /** A store to the payload of the node in focus. */
  method StorePayload<D, A>(x: Node<D, A>, d: D, ghost c: Place<D, A>, ghost t: Shape<D, A>)
    requires t.Branch? && t.entry.node == x && At(c, t)
    modifies x`data
    ensures At(c, t.(entry := Item(x, d))) && x.data == d
  {
    assert Rep(t.left, x.left, x) && Rep(t.right, x.right, x);
    x.data := d;
  }

  // ----- neighbours (avl.c:296-340) -----

  ghost function NodeAt<D, A>(s: seq<Item<D, A>>, i: int): Node?<D, A> {
    if 0 <= i < |s| then s[i].node else null
  }

  /** The in-order position of the node in focus. */
  ghost function Index<D, A>(c: Place<D, A>, t: Shape<D, A>): int
    requires t.Branch?
  {
    |Before(c)| + |InOrder(t.left)|
  }

  lemma {:induction false} Neighbours<D, A>(c: Place<D, A>, t: Shape<D, A>)
    requires t.Branch?
    ensures var (s, i) := (InOrder(Plug(c, t)), Index(c, t));
      && 0 <= i < |s| && s[i] == t.entry
      && NodeAt(s, i + 1) == NodeAt(InOrder(t.right) + After(c), 0)
      && NodeAt(s, i - 1) == NodeAt(Before(c) + InOrder(t.left), i - 1)
  {
    PlugInOrder(c, t);
  }

  /** The position of an entry of the tree in address order. */
  ghost function PosOf<D, A>(t: Shape<D, A>, e: Item<D, A>): (j: int)
    requires e in InOrder(t)
    ensures 0 <= j < |InOrder(t)| && InOrder(t)[j] == e
  {
    var (c, s) := Locate(Top, t, e);
    Neighbours(c, s);
    Index(c, s)
  }

  /** `avl_first`, and the descent of `avl_get_successor` (avl.c:128-133, 324-327). */
  method First<D, A>(x: Node<D, A>, ghost t: Shape<D, A>, ghost par: Node?<D, A>) returns (y: Node<D, A>)
    requires t.Branch? && Rep(t, x, par)
    ensures y == InOrder(t)[0].node
  {
    y := x;
    ghost var s, above := t, par;
    while y.left != null
      invariant s.Branch? && Rep(s, y, above)
      invariant InOrder(s)[0] == InOrder(t)[0]
      decreases s
    {
      above := y;
      y := y.left;
      s := s.left;
    }
  }

  /** `avl_last`, and the descent of `avl_get_predecessor`. */
  method Last<D, A>(x: Node<D, A>, ghost t: Shape<D, A>, ghost par: Node?<D, A>) returns (y: Node<D, A>)
    requires t.Branch? && Rep(t, x, par)
    ensures y == InOrder(t)[|InOrder(t)| - 1].node
  {
    y := x;
    ghost var s, above := t, par;
    while y.right != null
      invariant s.Branch? && Rep(s, y, above)
      invariant InOrder(s)[|InOrder(s)| - 1] == InOrder(t)[|InOrder(t)| - 1]
      decreases s
    {
      above := y;
      y := y.right;
      s := s.right;
    }
  }

  /** The climb of `avl_get_successor`: up while coming from a right child. */
  method ClimbRight<D, A>(x: Node<D, A>, ghost c: Place<D, A>, ghost t: Shape<D, A>) returns (p: Node?<D, A>)
    requires t.Branch? && t.entry.node == x && At(c, t)
    ensures p == NodeAt(After(c), 0)
  {
    var curr := x;
    p := x.parent;
    ghost var c', s := c, t;
    while p != null && curr == p.right
      invariant s.Branch? && RootOf(s) == curr && ParentOf(c') == p && At(c', s)
      invariant After(c') == After(c)
      decreases c'
    {
      AtAbove(c', s);
      s, c' := Above(c', s), c'.up;
      curr := p;
      p := p.parent;
    }
  }

  /** The climb of `avl_get_predecessor`: up while coming from a left child. */
  method ClimbLeft<D, A>(x: Node<D, A>, ghost c: Place<D, A>, ghost t: Shape<D, A>) returns (p: Node?<D, A>)
    requires t.Branch? && t.entry.node == x && At(c, t)
    ensures p == NodeAt(Before(c), |Before(c)| - 1)
  {
    var curr := x;
    p := x.parent;
    ghost var c', s := c, t;
    while p != null && curr == p.left
      invariant s.Branch? && RootOf(s) == curr && ParentOf(c') == p && At(c', s)
      invariant Before(c') == Before(c)
      decreases c'
    {
      AtAbove(c', s);
      s, c' := Above(c', s), c'.up;
      curr := p;
      p := p.parent;
    }
  }

  /** `avl_next`: exactly the next node in order, NULL after the last. */
  method Successor<D, A>(x: Node<D, A>, ghost c: Place<D, A>, ghost t: Shape<D, A>) returns (r: Node?<D, A>)
    requires t.Branch? && t.entry.node == x && At(c, t)
    ensures r == NodeAt(InOrder(Plug(c, t)), Index(c, t) + 1)
  {
    Neighbours(c, t);
    assert Rep(t.left, x.left, x) && Rep(t.right, x.right, x);
    if x.right != null {
      r := First(x.right, t.right, x);
    } else {
      r := ClimbRight(x, c, t);
    }
  }

  /** `avl_prev`: exactly the node before in order, NULL before the first. */
  method Predecessor<D, A>(x: Node<D, A>, ghost c: Place<D, A>, ghost t: Shape<D, A>) returns (r: Node?<D, A>)
    requires t.Branch? && t.entry.node == x && At(c, t)
    ensures r == NodeAt(InOrder(Plug(c, t)), Index(c, t) - 1)
  {
    Neighbours(c, t);
    assert Rep(t.left, x.left, x) && Rep(t.right, x.right, x);
    if x.left != null {
      r := Last(x.left, t.left, x);
    } else {
      r := ClimbLeft(x, c, t);
    }
  }

  // ----- search (avl.c:117-121, 371-377) -----

  /** `avl_get_node_rec` on values. A probe is a comparator with its key fixed: it sees the node's
  entry and cache and may look at its children's caches. */
  type Probe<!E, !A> = (E, A, Option<A>, Option<A>) -> int

  function Search<E, A>(t: Tree<E, A>, probe: Probe<E, A>): (r: Tree<E, A>) {
    if t.Leaf? then Leaf
    else
      var ans := probe(t.entry, t.aug, AugOf(t.left), AugOf(t.right));
      if ans == 0 then t
      else if ans > 0 then Search(t.left, probe)
      else Search(t.right, probe)
  }

  lemma {:induction false} SearchMember<E, A>(t: Tree<E, A>, probe: Probe<E, A>)
    ensures Search(t, probe).Branch? ==> Search(t, probe).entry in InOrder(t)
  {
    if t.Branch? {
      SearchMember(t.left, probe);
      SearchMember(t.right, probe);
    }
  }

  /** `avl_get_node`. */
  function GetNode<D, A>(x: Node?<D, A>, probe: Probe<Item<D, A>, A>, ghost t: Shape<D, A>, ghost par: Node?<D, A>)
    : (r: Node?<D, A>)
    requires Rep(t, x, par)
    reads Nodes(t)
    ensures r == RootOf(Search(t, probe))
    decreases t
  {
    if x == null then null
    else
      assert Rep(t.left, x.left, x) && Rep(t.right, x.right, x);
      var la := if x.left != null then Some(x.left.aug) else None;
      var ra := if x.right != null then Some(x.right.aug) else None;
      var ans := probe(Item(x, x.data), x.aug, la, ra);
      if ans == 0 then x
      else if ans > 0 then GetNode(x.left, probe, t.left, x)
      else GetNode(x.right, probe, t.right, x)
  }

  // ----- the climb to the root (avl.c:273-294) -----

  /** `t` is linked to its parent, but the parent's own link is still on `was`. Lines 289-290 put
  that right only if `was` is the root of `t` or the position is a right child. */
  ghost predicate AlmostAt<D, A>(c: Place<D, A>, t: Shape<D, A>, was: Node<D, A>)
    reads CtxNodes(c), Nodes(t)
  {
    && CtxRep(c, was, ParentOf(c)) && Rep(t, RootOf(t), ParentOf(c))
    && CtxNodes(c) !! Nodes(t)
    && (c.InLeft? ==> was == RootOf(t))
  }

  /** Lines 289-290: hang the rebalanced subtree where the old one was. */
  method Rehang<D, A>(oldNode: Node<D, A>, y: Node?<D, A>, p: Node<D, A>,
      ghost c: Place<D, A>, ghost s: Shape<D, A>, ghost was: Node<D, A>)
    requires !c.Top? && CtxRep(c, was, p) && Rep(s, y, p)
    requires CtxNodes(c) !! Nodes(s) && oldNode !in CtxNodes(c) && (c.InLeft? ==> was == oldNode)
    modifies p`left, p`right
    ensures At(c, s)
  {
    if oldNode == p.left { p.left := y; } else { p.right := y; }
  }

  /** One turn of the loop: settle this node and rehang it. */
  method ClimbStep<D, A>(x: Node<D, A>, upd: Callback<D, A>, ghost c: Place<D, A>, ghost t: Shape<D, A>,
      ghost was: Node<D, A>)
    returns (y: Node<D, A>)
    requires t.Branch? && t.entry.node == x && AlmostAt(c, t, was)
    requires DepthsExact(t.left) && DepthsExact(t.right)
    modifies CtxNodes(c), Nodes(t)
    ensures At(c, Settle(t, upd)) && Nodes(Settle(t, upd)) == Nodes(t)
    ensures y == RootOf(Settle(t, upd)) && y.parent == ParentOf(c)
  {
    CtxNodesAllocated(c);
    y := SettleAt(x, upd, t, ParentOf(c));
    if y.parent == null { return; }
    Rehang(x, y, y.parent, c, Settle(t, upd), was);
  }

  /** `avl_bubble_update_and_balance`. */
  method BubbleAt<D, A>(x: Node<D, A>, upd: Callback<D, A>, ghost c: Place<D, A>, ghost t: Shape<D, A>,
      ghost was: Node<D, A>)
    returns (root: Node<D, A>)
    requires t.Branch? && t.entry.node == x && AlmostAt(c, t, was)
    requires DepthsExact(t.left) && DepthsExact(t.right) && SidesExact(c)
    modifies CtxNodes(c), Nodes(t)
    ensures var r := Bubble(c, t, upd);
      Rep(r, root, null) && Nodes(r) == CtxNodes(c) + Nodes(t)
  {
    var node := x;
    ghost var c', t' := c, t;
    ghost var was': Node<D, A> := was;
    while true
      invariant t'.Branch? && t'.entry.node == node && AlmostAt(c', t', was')
      invariant DepthsExact(t'.left) && DepthsExact(t'.right) && SidesExact(c')
      invariant Bubble(c', t', upd) == Bubble(c, t, upd)
      invariant CtxNodes(c') + Nodes(t') == CtxNodes(c) + Nodes(t)
      decreases c'
    {
      node := ClimbStep(node, upd, c', t', was');
      if node.parent == null { return node; }
      node := node.parent;
      AtAbove(c', Settle(t', upd));
      c', t', was' := c'.up, Above(c', Settle(t', upd)), node;
    }
  }
}
