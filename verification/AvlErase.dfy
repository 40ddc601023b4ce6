/** `avl_remove` in place (avl.c:56-108). */
module AvlErase {
  import opened Seqs
  import opened AvlTree
  import opened AvlPath
  import opened AvlNodes
  import opened AvlWalks
  import opened AvlRemove

  datatype Status = Done | NullFault | LinkFault

  ghost function StatusOf<E, A>(o: Outcome<E, A>): Status {
    match o
    case Removed(_) => Done
    case NullDereference => NullFault
    case LostLink => LinkFault
  }

  ghost predicate Occurs<D, A>(s: seq<Item<D, A>>, n: Node<D, A>) {
    exists i :: 0 <= i < |s| && s[i].node == n
  }

  lemma {:induction false} OccursConcat<D, A>(l: seq<Item<D, A>>, x: Item<D, A>, r: seq<Item<D, A>>, n: Node<D, A>)
    ensures Occurs(l + [x] + r, n) <==> Occurs(l, n) || n == x.node || Occurs(r, n)
  {
    var s := l + [x] + r;
    if Occurs(l, n) {
      var i :| 0 <= i < |l| && l[i].node == n;
      assert s[i].node == n;
    }
    if Occurs(r, n) {
      var i :| 0 <= i < |r| && r[i].node == n;
      assert s[|l| + 1 + i].node == n;
    }
    assert s[|l|] == x;
  }

  lemma {:induction false} NodesInOrder<D, A>(t: Shape<D, A>, n: Node<D, A>)
    ensures n in Nodes(t) <==> Occurs(InOrder(t), n)
  {
    if t.Branch? {
      NodesInOrder(t.left, n);
      NodesInOrder(t.right, n);
      OccursConcat(InOrder(t.left), t.entry, InOrder(t.right), n);
    }
  }

  ghost predicate DistinctNodes<D, A>(s: seq<Item<D, A>>) {
    forall i, j :: 0 <= i < j < |s| ==> s[i].node != s[j].node
  }

  lemma {:induction false} DistinctConcat<D, A>(l: seq<Item<D, A>>, x: Item<D, A>, r: seq<Item<D, A>>)
    requires DistinctNodes(l) && DistinctNodes(r)
    requires !Occurs(l, x.node) && !Occurs(r, x.node)
    requires forall i, j :: 0 <= i < |l| && 0 <= j < |r| ==> l[i].node != r[j].node
    ensures DistinctNodes(l + [x] + r)
  {
    var s, m := l + [x] + r, |l|;
    forall i, j | 0 <= i < j < |s| ensures s[i].node != s[j].node {
      if i < m && j > m { assert s[i] == l[i] && s[j] == r[j - m - 1]; }
      else if i < m && j < m { assert s[i] == l[i] && s[j] == l[j]; }
      else if i > m { assert s[i] == r[i - m - 1] && s[j] == r[j - m - 1]; }
      else if i == m { assert s[j] == r[j - m - 1]; }
      else { assert s[i] == l[i]; }
    }
  }

  /** The two neighbour walks undo each other: `y` comes right after `x` exactly when `x` comes right
  before `y`. */
  lemma {:induction false} NextUndoesPrev<D, A>(c: Place<D, A>, t: Shape<D, A>, c': Place<D, A>, t': Shape<D, A>)
    requires t.Branch? && t'.Branch? && Plug(c, t) == Plug(c', t') && DistinctNodes(InOrder(Plug(c, t)))
    ensures t'.entry.node == NodeAt(InOrder(Plug(c, t)), Index(c, t) + 1) <==>
            t.entry.node == NodeAt(InOrder(Plug(c, t)), Index(c', t') - 1)
  {
    Neighbours(c, t);
    Neighbours(c', t');
  }

  /** Each node of a well-linked tree occurs once in its order. */
  lemma {:induction false} RepDistinct<D, A>(t: Shape<D, A>, p: Node?<D, A>, par: Node?<D, A>)
    requires Rep(t, p, par)
    ensures DistinctNodes(InOrder(t)) && Distinct(InOrder(t))
  {
    if t.Branch? {
      var l, r := InOrder(t.left), InOrder(t.right);
      RepDistinct(t.left, p.left, p);
      RepDistinct(t.right, p.right, p);
      NodesInOrder(t.left, p);
      NodesInOrder(t.right, p);
      forall i, j | 0 <= i < |l| && 0 <= j < |r| ensures l[i].node != r[j].node {
        NodesInOrder(t.left, l[i].node);
        NodesInOrder(t.right, r[j].node);
      }
      DistinctConcat(l, t.entry, r);
    }
  }

  ghost function OnlyChild<D, A>(t: Shape<D, A>): Shape<D, A>
    requires t.Branch?
  {
    if t.left.Branch? then t.left else t.right
  }

  /** Lines 96-97: the only child, if any, gets the node's parent. */
  method Adopt<D, A>(x: Node<D, A>, ghost c: Place<D, A>, ghost t: Shape<D, A>) returns (child: Node?<D, A>)
    requires t.Branch? && t.entry.node == x && At(c, t) && (t.left.Leaf? || t.right.Leaf?)
    modifies Nodes(OnlyChild(t))
    ensures CtxRep(c, x, ParentOf(c)) && Rep(OnlyChild(t), child, ParentOf(c))
    ensures CtxNodes(c) !! Nodes(OnlyChild(t)) && x !in CtxNodes(c) && x !in Nodes(OnlyChild(t))
    ensures Nodes(OnlyChild(t)) == Nodes(t) - {x} && x.parent == ParentOf(c)
  {
    assert Rep(t.left, x.left, x) && Rep(t.right, x.right, x);
    child := if x.left != null then x.left else x.right;
    assert child != null ==> child in Nodes(OnlyChild(t));
    if child != null { child.parent := x.parent; }
  }

  /** Lines 67-69, 100-107: hang `child` in the place of `x`, then climb from the parent. */
  method HangAndClimb<D, A>(x: Node<D, A>, child: Node?<D, A>, upd: Callback<D, A>, ghost c: Place<D, A>,
      ghost s: Shape<D, A>)
    returns (root: Node<D, A>)
    requires !c.Top? && x.parent == ParentOf(c) && CtxRep(c, x, x.parent) && Rep(s, child, x.parent)
    requires CtxNodes(c) !! Nodes(s) && x !in CtxNodes(c)
    requires SidesExact(c) && DepthsExact(s)
    modifies CtxNodes(c), Nodes(s)
    ensures var r := Bubble(c.up, Above(c, s), upd);
      Rep(r, root, null) && Nodes(r) == CtxNodes(c) + Nodes(s)
  {
    var p := x.parent;
    Rehang(x, child, p, c, s, x);
    AtAbove(c, s);
    root := BubbleAt(p, upd, c.up, Above(c, s), p);
  }

  /** Types 1 and 2 of `avl_remove` (lines 63-70, 93-107): at most one child, which takes the
  node's place. Line 100 follows the parent even when it is NULL. */
  method DetachAt<D, A>(x: Node<D, A>, upd: Callback<D, A>, ghost c: Place<D, A>, ghost t: Shape<D, A>)
    returns (st: Status, root: Node?<D, A>)
    requires t.Branch? && t.entry.node == x && At(c, t) && (t.left.Leaf? || t.right.Leaf?)
    requires SidesExact(c) && DepthsExact(OnlyChild(t))
    modifies CtxNodes(c), Nodes(OnlyChild(t))
    ensures var o := Detach(c, OnlyChild(t), upd);
      && st == StatusOf(o)
      && (st == Done ==> Rep(o.tree, root, null) && Nodes(o.tree) == CtxNodes(c) + Nodes(t) - {x})
  {
    CtxNodesAllocated(c);
    var child := Adopt(x, c, t);
    if x.parent == null {
      st, root := if child == null then Done else NullFault, null;
      return;
    }
    root := HangAndClimb(x, child, upd, c, OnlyChild(t));
    st := Done;
  }

  /** The victim of a two-child removal is in the tree, below the node to remove. */
  lemma {:induction false} VictimAt<D, A>(c: Place<D, A>, t: Shape<D, A>)
    requires t.Branch? && t.right.Branch? && At(c, t) && DepthsExact(Plug(c, t))
    ensures var (vc, v) := Victim(c, t);
      && At(vc, v) && SidesExact(vc) && DepthsExact(v.right)
      && CtxNodes(vc) + Nodes(v) == CtxNodes(c) + Nodes(t)
      && v.entry == InOrder(t.right)[0]
  {
    var (vc, v) := Victim(c, t);
    AtPlug(c, t);
    AtPlug(vc, v);
    SidesOfExact(vc, v);
    LeftmostBelow(InRight(c, t.left, t.entry, t.depth, t.aug), t.right);
    assert (InOrder(t.right) + After(InRight(c, t.left, t.entry, t.depth, t.aug)))[0] == InOrder(t.right)[0];
  }

  /** Lines 75-79: find the successor and remove it by a recursive call, which never fails. */
  method TakeOutVictim<D, A>(x: Node<D, A>, upd: Callback<D, A>, ghost c: Place<D, A>, ghost t: Shape<D, A>)
    returns (victim: Node<D, A>, root: Node?<D, A>)
    requires t.Branch? && t.right.Branch? && t.entry.node == x && At(c, t) && DepthsExact(Plug(c, t))
    modifies CtxNodes(c), Nodes(t)
    ensures var (rest, v) := (WithoutVictim(c, t, upd), Victim(c, t).1);
      && Rep(rest, root, null) && Nodes(rest) == CtxNodes(c) + Nodes(t) - {victim}
      && victim in CtxNodes(c) + Nodes(t) && Holds(victim, v.entry, v.depth, v.aug)
  {
    ghost var (vc, v) := Victim(c, t);
    VictimAt(c, t);
    CtxNodesAllocated(vc);
    NodesAllocated(v);
    assert Rep(t.right, x.right, x);
    victim := First(x.right, t.right, x);
    var st;
    st, root := DetachAt(victim, upd, vc, v);
  }

  /** `victim->left->parent = victim;` and its mirror. */
  method Reparent<D, A>(z: Node<D, A>, victim: Node<D, A>, ghost t: Shape<D, A>, ghost was: Node<D, A>)
    requires Rep(t, z, was)
    modifies z`parent
    ensures Rep(t, z, victim) && z.parent == victim
  {
    z.parent := victim;
  }

  /** Lines 82-88: the victim takes over the links of the node to remove, except that nothing
  redirects the parent's own link. */
  method TakeLinks<D, A>(victim: Node<D, A>, x: Node<D, A>, ghost s: Shape<D, A>, ghost s': Shape<D, A>,
      ghost par: Node?<D, A>)
    requires s.Branch? && s.left.Branch? && s.right.Branch? && Rep(s, x, par)
    requires s'.Branch? && s' == s.(entry := s'.entry, depth := s'.depth, aug := s'.aug)
    requires Holds(victim, s'.entry, s'.depth, s'.aug) && victim !in Nodes(s)
    modifies victim, Nodes(s.left), Nodes(s.right)
    ensures Rep(s', victim, par) && x.parent == par && x.left != null && x.left.parent == victim
  {
    assert Rep(s.left, x.left, x) && Rep(s.right, x.right, x);
    assert x.left in Nodes(s.left) && x.right in Nodes(s.right);
    NodesAllocated(s);
    victim.left := x.left;
    Reparent(victim.left, victim, s.left, x);
    victim.right := x.right;
    Reparent(victim.right, victim, s.right, x);
    victim.parent := x.parent;
  }

  /** The position of the node to remove once its successor is gone. */
  lemma {:induction false} StillAt<D, A>(c: Place<D, A>, t: Shape<D, A>, upd: Callback<D, A>, root: Node?<D, A>)
    requires t.Branch? && t.right.Branch? && DepthsExact(Plug(c, t))
    requires Rep(WithoutVictim(c, t, upd), root, null)
    ensures var (c', s) := Refocus(c, t, upd);
      At(c', s) && CtxNodes(c') + Nodes(s) == Nodes(WithoutVictim(c, t, upd))
  {
    var (c', s) := Refocus(c, t, upd);
    AtPlug(c', s);
  }

  /** Lines 82-107: the victim takes the node's place and the climb starts from it. Stops where
  the code would dereference NULL or start climbing from a parent whose link was never moved. */
  method TakePlace<D, A>(victim: Node<D, A>, x: Node<D, A>, upd: Callback<D, A>, was: Node?<D, A>,
      ghost c: Place<D, A>, ghost s: Shape<D, A>, ghost v: Shape<D, A>)
    returns (st: Status, root: Node?<D, A>)
    requires s.Branch? && s.entry.node == x && At(c, s) && SidesExact(c) && DepthsExact(s)
    requires v.Branch? && Holds(victim, v.entry, v.depth, v.aug) && victim !in CtxNodes(c) + Nodes(s)
    modifies victim, CtxNodes(c), Nodes(s)
    ensures var o := TakeOver(c, s, v, upd);
      && st == StatusOf(o)
      && (st == Done ==> Rep(o.tree, root, null) && Nodes(o.tree) == CtxNodes(c) + Nodes(s) - {x} + {victim})
      && (st == LinkFault ==> x.parent != null && x.parent.left == x && x.left != null && x.left.parent != x)
  {
    assert Rep(s.left, x.left, x) && Rep(s.right, x.right, x);
    if x.left == null || x.right == null { return NullFault, was; }
    CtxNodesAllocated(c);
    ghost var s' := Impersonate(s, v);
    TakeLinks(victim, x, s, s', ParentOf(c));
    if x.parent != null && x.parent.left == x { return LinkFault, was; }
    root := ClimbFrom(victim, x, upd, c, s, s');
    st := Done;
  }

  /** The climb from the victim, in the place of `x`. */
  method ClimbFrom<D, A>(victim: Node<D, A>, x: Node<D, A>, upd: Callback<D, A>, ghost c: Place<D, A>,
      ghost s: Shape<D, A>, ghost s': Shape<D, A>)
    returns (root: Node<D, A>)
    requires s.Branch? && s.entry.node == x && x !in CtxNodes(c) && x !in Nodes(s.left) && x !in Nodes(s.right)
    requires s'.Branch? && s'.entry.node == victim && s'.left == s.left && s'.right == s.right && AlmostAt(c, s', x)
    requires DepthsExact(s) && SidesExact(c)
    modifies CtxNodes(c), Nodes(s')
    ensures var r := Bubble(c, s', upd); Rep(r, root, null) && Nodes(r) == CtxNodes(c) + Nodes(s) - {x} + {victim}
  {
    Swapped(CtxNodes(c), Nodes(s.left) + Nodes(s.right), x, victim);
    root := BubbleAt(victim, upd, c, s', x);
  }

  lemma {:induction false} Swapped<T>(around: set<T>, below: set<T>, x: T, y: T)
    requires x !in around && x !in below
    ensures around + (below + {y}) == around + (below + {x}) - {x} + {y}
  {
  }

  /** Type 3 of `avl_remove` (lines 72-91): two children. */
  method ReplaceAt<D, A>(x: Node<D, A>, upd: Callback<D, A>, ghost c: Place<D, A>, ghost t: Shape<D, A>)
    returns (st: Status, root: Node?<D, A>)
    requires t.Branch? && t.entry.node == x && At(c, t) && DepthsExact(Plug(c, t))
    requires t.left.Branch? && t.right.Branch?
    modifies CtxNodes(c), Nodes(t)
    ensures var o := Remove(c, t, upd);
      && st == StatusOf(o)
      && (st == Done ==> Rep(o.tree, root, null) && Nodes(o.tree) == CtxNodes(c) + Nodes(t) - {x})
      && (st == LinkFault ==> x.parent != null && x.parent.left == x && x.left != null && x.left.parent != x)
  {
    var victim;
    victim, root := TakeOutVictim(x, upd, c, t);
    StillAt(c, t, upd, root);
    ghost var (c', s) := Refocus(c, t, upd);
    st, root := TakePlace(victim, x, upd, root, c', s, Victim(c, t).1);
  }

  /** `avl_remove`. */
  method RemoveAt<D, A>(x: Node<D, A>, upd: Callback<D, A>, ghost c: Place<D, A>, ghost t: Shape<D, A>)
    returns (st: Status, root: Node?<D, A>)
    requires t.Branch? && t.entry.node == x && At(c, t) && DepthsExact(Plug(c, t))
    modifies CtxNodes(c), Nodes(t)
    ensures var o := Remove(c, t, upd);
      && st == StatusOf(o)
      && (st == Done ==> Rep(o.tree, root, null) && Nodes(o.tree) == CtxNodes(c) + Nodes(t) - {x})
      && (st == LinkFault ==> x.parent != null && x.parent.left == x && x.left != null && x.left.parent != x)
  {
    SidesOfExact(c, t);
    assert Rep(t.left, x.left, x) && Rep(t.right, x.right, x);
    if x.left != null && x.right != null {
      st, root := ReplaceAt(x, upd, c, t);
    } else {
      st, root := DetachAt(x, upd, c, t);
    }
  }
}
