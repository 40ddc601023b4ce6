/** The pointer code of `common/ds/avl.c`: linked nodes with parent pointers, rewritten in
place. `Rep` and `CtxRep` tie the heap to the values of `AvlTree` and `AvlPath`. */
module AvlNodes {
  import opened AvlTree
  import opened AvlPath
  import opened AvlInsert

  /** `avl_node_t` together with the structure it is the head of. */
  class Node<D, A> {
    var parent: Node?<D, A>
    var left: Node?<D, A>
    var right: Node?<D, A>
    var depth: int  // subtree_max_depth
    var data: D     // the embedding structure's own fields
    var aug: A      // the field the update callback maintains

    /** `avl_init`. */
    constructor (d: D, a: A)
      ensures Unlinked() && parent == null && data == d && aug == a
    {
      parent, left, right, depth := null, null, null, 0;
      data, aug := d, a;
    }

    ghost predicate Unlinked()
      reads this
    {
      left == null && right == null && depth == 0
    }
  }

  datatype Item<D, A> = Item(node: Node<D, A>, data: D)
  type Shape<D, A> = Tree<Item<D, A>, A>
  type Place<D, A> = Ctx<Item<D, A>, A>
  type Callback<!D, !A> = Update<Item<D, A>, A>

  ghost function Nodes<D, A>(t: Shape<D, A>): set<Node<D, A>> {
    if t.Leaf? then {} else Nodes(t.left) + {t.entry.node} + Nodes(t.right)
  }

  ghost function CtxNodes<D, A>(c: Place<D, A>): set<Node<D, A>> {
    match c
    case Top => {}
    case InLeft(up, e, d, a, right) => CtxNodes(up) + {e.node} + Nodes(right)
    case InRight(up, left, e, d, a) => CtxNodes(up) + {e.node} + Nodes(left)
  }

  /** The fields `x` holds besides its links. */
  ghost predicate Holds<D, A>(x: Node<D, A>, e: Item<D, A>, d: int, a: A)
    reads x
  {
    x == e.node && x.data == e.data && x.depth == d && x.aug == a
  }

  /** The nodes reachable from `p` form exactly `t`, unshared, each pointing back to its parent. */
  ghost predicate Rep<D, A>(t: Shape<D, A>, p: Node?<D, A>, par: Node?<D, A>)
    reads Nodes(t)
  {
    if t.Leaf? then p == null
    else
      && p != null && p == t.entry.node
      && Holds(p, t.entry, t.depth, t.aug) && p.parent == par
      && p !in Nodes(t.left) && p !in Nodes(t.right) && Nodes(t.left) !! Nodes(t.right)
      && Rep(t.left, p.left, p) && Rep(t.right, p.right, p)
  }

  /** The parents and side subtrees above a position are as `c` says; `hole` hangs below `par`. */
  ghost predicate CtxRep<D, A>(c: Place<D, A>, hole: Node?<D, A>, par: Node?<D, A>)
    reads CtxNodes(c)
  {
    match c
    case Top => par == null
    case InLeft(up, e, d, a, right) =>
      && par != null && par == e.node && Holds(par, e, d, a) && par.left == hole
      && par !in CtxNodes(up) && par !in Nodes(right) && CtxNodes(up) !! Nodes(right)
      && Rep(right, par.right, par) && CtxRep(up, par, par.parent)
    case InRight(up, left, e, d, a) =>
      && par != null && par == e.node && Holds(par, e, d, a) && par.right == hole
      && par !in CtxNodes(up) && par !in Nodes(left) && CtxNodes(up) !! Nodes(left)
      && Rep(left, par.left, par) && CtxRep(up, par, par.parent)
  }

  lemma {:induction false} NodesAllocated<D, A>(t: Shape<D, A>)
    ensures forall n :: n in Nodes(t) ==> allocated(n)
  {
    if t.Branch? {
      NodesAllocated(t.left);
      NodesAllocated(t.right);
    }
  }

  // ----- avl.c:168-271, node by node -----

  /** `avl_update`. */
  method UpdateNode<D, A>(x: Node?<D, A>, upd: Callback<D, A>, ghost t: Shape<D, A>, ghost par: Node?<D, A>)
    requires Rep(t, x, par)
    modifies if x == null then {} else {x}
    ensures Rep(Refresh(t, upd), x, par)
    ensures x != null ==> x.left == old(x.left) && x.right == old(x.right) && x.parent == par
  {
    if x == null { return; }
    var l := if x.left != null then x.left.depth else -1;
    var r := if x.right != null then x.right.depth else -1;
    x.depth := Max(l, r) + 1;
    var la := if x.left != null then Some(x.left.aug) else None;
    var ra := if x.right != null then Some(x.right.aug) else None;
    x.aug := upd(Item(x, x.data), la, ra);
  }

  /** `avl_get_balance_factor`. */
  function BalanceFactorOf<D, A>(x: Node<D, A>): (b: int)
    reads x, x.left, x.right
  {
    (if x.left != null then x.left.depth + 1 else 0) - (if x.right != null then x.right.depth + 1 else 0)
  }

  lemma {:induction false} FactorRead<D, A>(x: Node<D, A>, t: Shape<D, A>, par: Node?<D, A>)
    requires t.Branch? && Rep(t, x, par)
    ensures BalanceFactorOf(x) == BalanceFactor(t)
  {
  }

  method UpdateLeftChild<D, A>(x: Node<D, A>, upd: Callback<D, A>, ghost t: Shape<D, A>, ghost par: Node?<D, A>)
    requires t.Branch? && Rep(t, x, par)
    modifies Nodes(t.left)
    ensures Rep(t.(left := Refresh(t.left, upd)), x, par)
  {
    assert x.left != null ==> x.left in Nodes(t.left);
    assert Rep(t.right, x.right, x);
    NodesAllocated(t.right);
    UpdateNode(x.left, upd, t.left, x);
    assert Rep(t.right, x.right, x);
  }

  method UpdateRightChild<D, A>(x: Node<D, A>, upd: Callback<D, A>, ghost t: Shape<D, A>, ghost par: Node?<D, A>)
    requires t.Branch? && Rep(t, x, par)
    modifies Nodes(t.right)
    ensures Rep(t.(right := Refresh(t.right, upd)), x, par)
  {
    assert x.right != null ==> x.right in Nodes(t.right);
    assert Rep(t.left, x.left, x);
    NodesAllocated(t.left);
    UpdateNode(x.right, upd, t.right, x);
    assert Rep(t.left, x.left, x);
  }

  /** The shape right after a right rotation has moved its pointers (avl.c:227-240). */
  ghost function TurnedRight<D, A>(t: Shape<D, A>): (r: Shape<D, A>)
    requires t.Branch? && t.left.Branch?
  {
    t.left.(right := t.(left := t.left.right))
  }

  /** What a right rotation of `x` over `y` has in hand: the two nodes and three whole subtrees. */
  ghost predicate RightPieces<D, A>(t: Shape<D, A>, x: Node<D, A>, y: Node<D, A>)
    requires t.Branch? && t.left.Branch?
    reads x, y, Nodes(t.left.left), Nodes(t.left.right), Nodes(t.right)
  {
    && Holds(x, t.entry, t.depth, t.aug) && Holds(y, t.left.entry, t.left.depth, t.left.aug)
    && x != y && x !in Nodes(t.left.left) + Nodes(t.left.right) + Nodes(t.right)
    && y !in Nodes(t.left.left) + Nodes(t.left.right) + Nodes(t.right)
    && Nodes(t.left.left) !! Nodes(t.left.right) && Nodes(t.left.left) !! Nodes(t.right)
    && Nodes(t.left.right) !! Nodes(t.right)
    && Rep(t.left.left, y.left, y) && Rep(t.right, x.right, x)
  }

  method TurnRight<D, A>(x: Node<D, A>, ghost t: Shape<D, A>, ghost par: Node?<D, A>) returns (y: Node<D, A>)
    requires t.Branch? && t.left.Branch? && Rep(t, x, par)
    modifies Nodes(t)
    ensures Rep(TurnedRight(t), y, par) && Nodes(TurnedRight(t)) == Nodes(t)
  {
    y := x.left;
    assert Rep(t.left, y, x);
    TurnedRightNodes(t, x, y);
    PassInnerRight(x, y, t);
    LiftLeft(x, y, t, par);
  }

  method PassInnerRight<D, A>(x: Node<D, A>, y: Node<D, A>, ghost t: Shape<D, A>)
    requires t.Branch? && t.left.Branch? && y != x && RightPieces(t, x, y)
    requires Rep(t.left.right, y.right, y)
    modifies x`left, Nodes(t.left.right)
    ensures RightPieces(t, x, y) && Rep(t.left.right, x.left, x)
  {
    assert y.right != null ==> y.right in Nodes(t.left.right);
    x.left := y.right;
    if x.left != null { x.left.parent := x; }
  }

  method LiftLeft<D, A>(x: Node<D, A>, y: Node<D, A>, ghost t: Shape<D, A>, ghost par: Node?<D, A>)
    requires t.Branch? && t.left.Branch? && RightPieces(t, x, y) && Rep(t.left.right, x.left, x)
    requires x.parent == par
    modifies x`parent, y`right, y`parent
    ensures Rep(TurnedRight(t), y, par)
  {
    y.right, y.parent, x.parent := x, x.parent, y;
    assert Rep(t.(left := t.left.right), x, y);
  }

  lemma {:induction false} TurnedRightNodes<D, A>(t: Shape<D, A>, x: Node<D, A>, y: Node<D, A>)
    requires t.Branch? && t.left.Branch? && x == t.entry.node && y == t.left.entry.node
    requires x !in Nodes(t.left) && Nodes(t.left) !! Nodes(t.right) && x !in Nodes(t.right)
    ensures Nodes(TurnedRight(t)) == Nodes(t)
    ensures x != y && x !in Nodes(t.left.left) + Nodes(t.left.right) && y !in Nodes(t.right)
    ensures Nodes(t.left.right) !! Nodes(t.right) && Nodes(t.left.left) !! Nodes(t.right)
  {
    assert Nodes(t.left) == Nodes(t.left.left) + {y} + Nodes(t.left.right);
    assert Nodes(t.(left := t.left.right)) == Nodes(t.left.right) + {x} + Nodes(t.right);
  }

  /** `avl_rotate_right`. */
  method RotateRightAt<D, A>(x: Node<D, A>, upd: Callback<D, A>, ghost t: Shape<D, A>, ghost par: Node?<D, A>)
    returns (y: Node<D, A>)
    requires t.Branch? && t.left.Branch? && Rep(t, x, par)
    modifies Nodes(t)
    ensures Rep(RotateRight(t, upd), y, par) && Nodes(RotateRight(t, upd)) == Nodes(t)
  {
    y := TurnRight(x, t, par);
    ghost var s := TurnedRight(t);
    UpdateLeftChild(y, upd, s, par);
    s := s.(left := Refresh(s.left, upd));
    UpdateRightChild(y, upd, s, par);
    s := s.(right := Refresh(s.right, upd));
    UpdateNode(y, upd, s, par);
  }

  /** The shape left after a left rotation has moved its pointers (avl.c:251-264). */
  ghost function TurnedLeft<D, A>(t: Shape<D, A>): (r: Shape<D, A>)
    requires t.Branch? && t.right.Branch?
  {
    t.right.(left := t.(right := t.right.left))
  }

  /** What a left rotation of `x` over `y` has in hand: the two nodes and three whole subtrees. */
  ghost predicate LeftPieces<D, A>(t: Shape<D, A>, x: Node<D, A>, y: Node<D, A>)
    requires t.Branch? && t.right.Branch?
    reads x, y, Nodes(t.right.right), Nodes(t.right.left), Nodes(t.left)
  {
    && Holds(x, t.entry, t.depth, t.aug) && Holds(y, t.right.entry, t.right.depth, t.right.aug)
    && x != y && x !in Nodes(t.right.right) + Nodes(t.right.left) + Nodes(t.left)
    && y !in Nodes(t.right.right) + Nodes(t.right.left) + Nodes(t.left)
    && Nodes(t.right.right) !! Nodes(t.right.left) && Nodes(t.right.right) !! Nodes(t.left)
    && Nodes(t.right.left) !! Nodes(t.left)
    && Rep(t.right.right, y.right, y) && Rep(t.left, x.left, x)
  }

  method TurnLeft<D, A>(x: Node<D, A>, ghost t: Shape<D, A>, ghost par: Node?<D, A>) returns (y: Node<D, A>)
    requires t.Branch? && t.right.Branch? && Rep(t, x, par)
    modifies Nodes(t)
    ensures Rep(TurnedLeft(t), y, par) && Nodes(TurnedLeft(t)) == Nodes(t)
  {
    y := x.right;
    assert Rep(t.right, y, x);
    TurnedLeftNodes(t, x, y);
    PassInnerLeft(x, y, t);
    LiftRight(x, y, t, par);
  }

  method PassInnerLeft<D, A>(x: Node<D, A>, y: Node<D, A>, ghost t: Shape<D, A>)
    requires t.Branch? && t.right.Branch? && y != x && LeftPieces(t, x, y)
    requires Rep(t.right.left, y.left, y)
    modifies x`right, Nodes(t.right.left)
    ensures LeftPieces(t, x, y) && Rep(t.right.left, x.right, x)
  {
    assert y.left != null ==> y.left in Nodes(t.right.left);
    x.right := y.left;
    if x.right != null { x.right.parent := x; }
  }

  method LiftRight<D, A>(x: Node<D, A>, y: Node<D, A>, ghost t: Shape<D, A>, ghost par: Node?<D, A>)
    requires t.Branch? && t.right.Branch? && LeftPieces(t, x, y) && Rep(t.right.left, x.right, x)
    requires x.parent == par
    modifies x`parent, y`left, y`parent
    ensures Rep(TurnedLeft(t), y, par)
  {
    y.left, y.parent, x.parent := x, x.parent, y;
    assert Rep(t.(right := t.right.left), x, y);
  }

  lemma {:induction false} TurnedLeftNodes<D, A>(t: Shape<D, A>, x: Node<D, A>, y: Node<D, A>)
    requires t.Branch? && t.right.Branch? && x == t.entry.node && y == t.right.entry.node
    requires x !in Nodes(t.right) && Nodes(t.right) !! Nodes(t.left) && x !in Nodes(t.left)
    ensures Nodes(TurnedLeft(t)) == Nodes(t)
    ensures x != y && x !in Nodes(t.right.right) + Nodes(t.right.left) && y !in Nodes(t.left)
    ensures Nodes(t.right.left) !! Nodes(t.left) && Nodes(t.right.right) !! Nodes(t.left)
  {
    assert Nodes(t.right) == Nodes(t.right.right) + {y} + Nodes(t.right.left);
    assert Nodes(t.(right := t.right.left)) == Nodes(t.right.left) + {x} + Nodes(t.left);
  }

  /** `avl_rotate_left`. */
  method RotateLeftAt<D, A>(x: Node<D, A>, upd: Callback<D, A>, ghost t: Shape<D, A>, ghost par: Node?<D, A>)
    returns (y: Node<D, A>)
    requires t.Branch? && t.right.Branch? && Rep(t, x, par)
    modifies Nodes(t)
    ensures Rep(RotateLeft(t, upd), y, par) && Nodes(RotateLeft(t, upd)) == Nodes(t)
  {
    y := TurnLeft(x, t, par);
    ghost var s := TurnedLeft(t);
    UpdateLeftChild(y, upd, s, par);
    s := s.(left := Refresh(s.left, upd));
    UpdateRightChild(y, upd, s, par);
    s := s.(right := Refresh(s.right, upd));
    UpdateNode(y, upd, s, par);
  }

  method RotateLeftBelow<D, A>(x: Node<D, A>, upd: Callback<D, A>, ghost t: Shape<D, A>, ghost par: Node?<D, A>)
    requires t.Branch? && t.left.Branch? && t.left.right.Branch? && Rep(t, x, par)
    modifies Nodes(t)
    ensures var r := t.(left := RotateLeft(t.left, upd)); Rep(r, x, par) && Nodes(r) == Nodes(t)
  {
    assert Rep(t.right, x.right, x);
    NodesAllocated(t);
    var l := RotateLeftAt(x.left, upd, t.left, x);
    x.left := l;
    assert Rep(t.right, x.right, x);
  }

  method RotateRightBelow<D, A>(x: Node<D, A>, upd: Callback<D, A>, ghost t: Shape<D, A>, ghost par: Node?<D, A>)
    requires t.Branch? && t.right.Branch? && t.right.left.Branch? && Rep(t, x, par)
    modifies Nodes(t)
    ensures var r := t.(right := RotateRight(t.right, upd)); Rep(r, x, par) && Nodes(r) == Nodes(t)
  {
    assert Rep(t.left, x.left, x);
    NodesAllocated(t);
    var r := RotateRightAt(x.right, upd, t.right, x);
    x.right := r;
    assert Rep(t.left, x.left, x);
  }

  /** `avl_check_and_balance`. */
  method CheckAndBalanceAt<D, A>(x: Node<D, A>, upd: Callback<D, A>, ghost t: Shape<D, A>, ghost par: Node?<D, A>)
    returns (y: Node<D, A>)
    requires t.Branch? && RotationsSafe(t) && Rep(t, x, par)
    modifies Nodes(t)
    ensures Rep(CheckAndBalance(t, upd), y, par) && Nodes(CheckAndBalance(t, upd)) == Nodes(t)
  {
    y := x;
    FactorRead(x, t, par);
    var balance := BalanceFactorOf(x);
    if balance < 2 && balance > -2 { return; }
    if balance > 0 {
      FactorRead(x.left, t.left, x);
      if BalanceFactorOf(x.left) > 0 {
        y := RotateRightAt(x, upd, t, par);
      } else {
        RotateLeftBelow(x, upd, t, par);
        y := RotateRightAt(x, upd, t.(left := RotateLeft(t.left, upd)), par);
      }
    } else {
      FactorRead(x.right, t.right, x);
      if BalanceFactorOf(x.right) < 0 {
        y := RotateLeftAt(x, upd, t, par);
      } else {
        RotateRightBelow(x, upd, t, par);
        y := RotateLeftAt(x, upd, t.(right := RotateRight(t.right, upd)), par);
      }
    }
  }

  /** One step on the way up: `avl_update` then `avl_check_and_balance`. */
  method SettleAt<D, A>(x: Node<D, A>, upd: Callback<D, A>, ghost t: Shape<D, A>, ghost par: Node?<D, A>)
    returns (y: Node<D, A>)
    requires t.Branch? && DepthsExact(t.left) && DepthsExact(t.right) && Rep(t, x, par)
    modifies Nodes(t)
    ensures Rep(Settle(t, upd), y, par) && Nodes(Settle(t, upd)) == Nodes(t)
  {
    RefreshIsExact(t, upd);
    ExactDepthsRotateSafely(Refresh(t, upd));
    UpdateNode(x, upd, t, par);
    y := CheckAndBalanceAt(x, upd, Refresh(t, upd), par);
  }

  // ----- insertion -----

  /** `avl_insert_rec`. */
  method InsertRecAt<D, A>(x: Node<D, A>, n: Node<D, A>, comp: (Item<D, A>, Item<D, A>) -> int,
      upd: Callback<D, A>, ghost t: Shape<D, A>, ghost par: Node?<D, A>)
    returns (y: Node<D, A>)
    requires t.Branch? && DepthsExact(t) && Rep(t, x, par)
    requires n !in Nodes(t) && n.Unlinked()
    modifies Nodes(t), n
    ensures var r := InsertRec(t, Item(n, old(n.data)), old(n.aug), comp, upd);
      Rep(r, y, par) && Nodes(r) == Nodes(t) + {n}
    decreases t, 1
  {
    ghost var e, a := Item(n, n.data), n.aug;
    n.parent := x;
    if comp(Item(x, x.data), Item(n, n.data)) > 0 {
      InsertLeft(x, n, comp, upd, t, par);
      y := SettleAt(x, upd, t.(left := Insert(t.left, e, a, comp, upd)), par);
    } else {
      InsertRight(x, n, comp, upd, t, par);
      y := SettleAt(x, upd, t.(right := Insert(t.right, e, a, comp, upd)), par);
    }
  }

  method InsertLeft<D, A>(x: Node<D, A>, n: Node<D, A>, comp: (Item<D, A>, Item<D, A>) -> int,
      upd: Callback<D, A>, ghost t: Shape<D, A>, ghost par: Node?<D, A>)
    requires t.Branch? && DepthsExact(t) && Rep(t, x, par)
    requires n !in Nodes(t) && n.Unlinked()
    modifies Nodes(t), n
    ensures var r := t.(left := Insert(t.left, Item(n, old(n.data)), old(n.aug), comp, upd));
      Rep(r, x, par) && Nodes(r) == Nodes(t) + {n}
    decreases t, 0
  {
    assert Rep(t.left, x.left, x) && Rep(t.right, x.right, x);
    NodesAllocated(t);
    if x.left != null {
      var l := InsertRecAt(x.left, n, comp, upd, t.left, x);
      x.left := l;
    } else {
      x.left := n;
      n.parent := x;
    }
    assert Rep(t.right, x.right, x);
  }

  method InsertRight<D, A>(x: Node<D, A>, n: Node<D, A>, comp: (Item<D, A>, Item<D, A>) -> int,
      upd: Callback<D, A>, ghost t: Shape<D, A>, ghost par: Node?<D, A>)
    requires t.Branch? && DepthsExact(t) && Rep(t, x, par)
    requires n !in Nodes(t) && n.Unlinked()
    modifies Nodes(t), n
    ensures var r := t.(right := Insert(t.right, Item(n, old(n.data)), old(n.aug), comp, upd));
      Rep(r, x, par) && Nodes(r) == Nodes(t) + {n}
    decreases t, 0
  {
    assert Rep(t.left, x.left, x) && Rep(t.right, x.right, x);
    NodesAllocated(t);
    if x.right != null {
      var r := InsertRecAt(x.right, n, comp, upd, t.right, x);
      x.right := r;
    } else {
      x.right := n;
      n.parent := x;
    }
    assert Rep(t.left, x.left, x);
  }
}
