/** The shape of the intrusive AVL tree of `common/ds/avl.c`, as a value.

A branch records what one `avl_node_t` holds: its entry (which node it is and the
payload of the structure it is embedded in), the cached `subtree_max_depth`, and the
cached value its `update` callback maintains. The cached fields are part of the value,
so the functions below can be wrong about them exactly where the C code can be. */
module AvlTree {
  datatype Option<+T> = None | Some(value: T)

  datatype Tree<E, A> =
    | Leaf
    | Branch(left: Tree<E, A>, entry: E, depth: int, aug: A, right: Tree<E, A>)

  /** The `update` callback: a node's cached value from its entry and its children's caches. */
  type Update<!E, !A> = (E, Option<A>, Option<A>) -> A

  function Max(a: int, b: int): int { if a > b then a else b }

  /** The depth the code reads through a child pointer: -1 stands for NULL (avl.c:172). */
  function Depth<E, A>(t: Tree<E, A>): int {
    if t.Leaf? then -1 else t.depth
  }

  function AugOf<E, A>(t: Tree<E, A>): Option<A> {
    if t.Leaf? then None else Some(t.aug)
  }

  /** The true height, which the cached depth is meant to equal. */
  function Height<E, A>(t: Tree<E, A>): int {
    if t.Leaf? then -1 else 1 + Max(Height(t.left), Height(t.right))
  }

  function InOrder<E, A>(t: Tree<E, A>): seq<E> {
    if t.Leaf? then [] else InOrder(t.left) + [t.entry] + InOrder(t.right)
  }

  ghost predicate DepthsExact<E, A>(t: Tree<E, A>) {
    t.Branch? ==> t.depth == Height(t) && DepthsExact(t.left) && DepthsExact(t.right)
  }

  ghost predicate AugExact<E, A>(t: Tree<E, A>, upd: Update<E, A>) {
    t.Branch? ==>
      && t.aug == upd(t.entry, AugOf(t.left), AugOf(t.right))
      && AugExact(t.left, upd) && AugExact(t.right, upd)
  }

  /** The AVL condition on true heights. */
  ghost predicate Balanced<E, A>(t: Tree<E, A>) {
    t.Branch? ==>
      && -1 <= Height(t.left) - Height(t.right) <= 1
      && Balanced(t.left) && Balanced(t.right)
  }

  // ----- the steps of avl.c -----

  /** A branch as `avl_update` leaves it: both cached fields computed from the children's. */
  function Make<E, A>(l: Tree<E, A>, e: E, r: Tree<E, A>, upd: Update<E, A>): Tree<E, A> {
    Branch(l, e, Max(Depth(l), Depth(r)) + 1, upd(e, AugOf(l), AugOf(r)), r)
  }

  /** `avl_update`. */
  function Refresh<E, A>(t: Tree<E, A>, upd: Update<E, A>): Tree<E, A> {
    if t.Leaf? then Leaf else Make(t.left, t.entry, t.right, upd)
  }

  /** `avl_get_balance_factor`. */
  function BalanceFactor<E, A>(t: Tree<E, A>): int
    requires t.Branch?
  {
    (Depth(t.left) + 1) - (Depth(t.right) + 1)
  }

  /** `avl_rotate_right`; following a missing left child would be a null dereference. */
  function RotateRight<E, A>(t: Tree<E, A>, upd: Update<E, A>): (r: Tree<E, A>)
    requires t.Branch? && t.left.Branch?
  {
    Make(Refresh(t.left.left, upd), t.left.entry, Make(t.left.right, t.entry, t.right, upd), upd)
  }

  /** `avl_rotate_left`. */
  function RotateLeft<E, A>(t: Tree<E, A>, upd: Update<E, A>): (r: Tree<E, A>)
    requires t.Branch? && t.right.Branch?
  {
    Make(Make(t.left, t.entry, t.right.left, upd), t.right.entry, Refresh(t.right.right, upd), upd)
  }

  /** No rotation `avl_check_and_balance` picks follows a null child. */
  ghost predicate RotationsSafe<E, A>(t: Tree<E, A>)
    requires t.Branch?
  {
    && (BalanceFactor(t) >= 2 ==>
          t.left.Branch? && (BalanceFactor(t.left) <= 0 ==> t.left.right.Branch?))
    && (BalanceFactor(t) <= -2 ==>
          t.right.Branch? && (BalanceFactor(t.right) >= 0 ==> t.right.left.Branch?))
  }

  /** `avl_check_and_balance`: a child factor of 0 takes the double rotation, as in the code. */
  function CheckAndBalance<E, A>(t: Tree<E, A>, upd: Update<E, A>): (r: Tree<E, A>)
    requires t.Branch? && RotationsSafe(t)
  {
    var balance := BalanceFactor(t);
    if -2 < balance < 2 then t
    else if balance > 0 then
      if BalanceFactor(t.left) > 0 then RotateRight(t, upd)
      else RotateRight(t.(left := RotateLeft(t.left, upd)), upd)
    else
      if BalanceFactor(t.right) < 0 then RotateLeft(t, upd)
      else RotateLeft(t.(right := RotateRight(t.right, upd)), upd)
  }

  /** One step on the way up: update the node, then rebalance it (avl.c:277-283, 366-367). */
  function Settle<E, A>(t: Tree<E, A>, upd: Update<E, A>): (r: Tree<E, A>)
    requires t.Branch? && DepthsExact(t.left) && DepthsExact(t.right)
    ensures r.Branch? && DepthsExact(r)
  {
    RefreshIsExact(t, upd);
    ExactDepthsRotateSafely(Refresh(t, upd));
    BalanceKeeps(Refresh(t, upd), upd);
    CheckAndBalance(Refresh(t, upd), upd)
  }

  lemma {:induction false} ExactDepth<E, A>(t: Tree<E, A>)
    requires DepthsExact(t)
    ensures Depth(t) == Height(t) >= -1
    ensures Depth(t) == -1 <==> t.Leaf?
  {
    if t.Branch? { ExactDepth(t.left); ExactDepth(t.right); }
  }

  lemma {:induction false} MakeIsExact<E, A>(l: Tree<E, A>, e: E, r: Tree<E, A>, upd: Update<E, A>)
    requires DepthsExact(l) && DepthsExact(r)
    ensures DepthsExact(Make(l, e, r, upd))
    ensures Height(Make(l, e, r, upd)) == 1 + Max(Height(l), Height(r))
  {
    ExactDepth(l);
    ExactDepth(r);
  }

  lemma {:induction false} RefreshIsExact<E, A>(t: Tree<E, A>, upd: Update<E, A>)
    requires t.Branch? ==> DepthsExact(t.left) && DepthsExact(t.right)
    ensures DepthsExact(Refresh(t, upd)) && Height(Refresh(t, upd)) == Height(t)
    ensures InOrder(Refresh(t, upd)) == InOrder(t)
  {
    if t.Branch? { MakeIsExact(t.left, t.entry, t.right, upd); }
  }

  /** With exact depths the tall side really is there, so no rotation dereferences NULL. */
  lemma {:induction false} ExactDepthsRotateSafely<E, A>(t: Tree<E, A>)
    requires t.Branch? && DepthsExact(t)
    ensures RotationsSafe(t)
  {
    ExactDepth(t.left);
    ExactDepth(t.right);
    if t.left.Branch? { ExactDepth(t.left.left); ExactDepth(t.left.right); }
    if t.right.Branch? { ExactDepth(t.right.left); ExactDepth(t.right.right); }
  }

  lemma {:induction false} Regroup<E>(a: seq<E>, x: E, b: seq<E>, y: E, c: seq<E>)
    ensures (a + [x] + b) + [y] + c == a + [x] + (b + [y] + c)
  {
  }

  lemma {:induction false} RotateRightKeeps<E, A>(t: Tree<E, A>, upd: Update<E, A>)
    requires t.Branch? && t.left.Branch?
    requires DepthsExact(t.left) && DepthsExact(t.right)
    ensures DepthsExact(RotateRight(t, upd)) && InOrder(RotateRight(t, upd)) == InOrder(t)
  {
    var moved := Make(t.left.right, t.entry, t.right, upd);
    RefreshIsExact(t.left.left, upd);
    MakeIsExact(t.left.right, t.entry, t.right, upd);
    MakeIsExact(Refresh(t.left.left, upd), t.left.entry, moved, upd);
    Regroup(InOrder(t.left.left), t.left.entry, InOrder(t.left.right), t.entry, InOrder(t.right));
  }

  lemma {:induction false} RotateLeftKeeps<E, A>(t: Tree<E, A>, upd: Update<E, A>)
    requires t.Branch? && t.right.Branch?
    requires DepthsExact(t.left) && DepthsExact(t.right)
    ensures DepthsExact(RotateLeft(t, upd)) && InOrder(RotateLeft(t, upd)) == InOrder(t)
  {
    var moved := Make(t.left, t.entry, t.right.left, upd);
    RefreshIsExact(t.right.right, upd);
    MakeIsExact(t.left, t.entry, t.right.left, upd);
    MakeIsExact(moved, t.right.entry, Refresh(t.right.right, upd), upd);
    Regroup(InOrder(t.left), t.entry, InOrder(t.right.left), t.right.entry, InOrder(t.right.right));
  }

  /** Rotations recompute bottom-up, so exact caches below give exact caches throughout. */
  lemma {:induction false} RotationsKeepAug<E, A>(t: Tree<E, A>, upd: Update<E, A>)
    requires t.Branch? && AugExact(t.left, upd) && AugExact(t.right, upd)
    ensures t.left.Branch? ==> AugExact(RotateRight(t, upd), upd)
    ensures t.right.Branch? ==> AugExact(RotateLeft(t, upd), upd)
  {
  }

  /** Rebalancing permutes nothing and leaves every cached field exact. */
  lemma {:induction false} BalanceKeeps<E, A>(t: Tree<E, A>, upd: Update<E, A>)
    requires t.Branch? && DepthsExact(t)
    ensures RotationsSafe(t)
    ensures var r := CheckAndBalance(t, upd);
      r.Branch? && DepthsExact(r) && InOrder(r) == InOrder(t)
  {
    ExactDepthsRotateSafely(t);
    if BalanceFactor(t) >= 2 {
      if BalanceFactor(t.left) > 0 {
        RotateRightKeeps(t, upd);
      } else {
        RotateLeftKeeps(t.left, upd);
        RotateRightKeeps(t.(left := RotateLeft(t.left, upd)), upd);
      }
    } else if BalanceFactor(t) <= -2 {
      if BalanceFactor(t.right) < 0 {
        RotateLeftKeeps(t, upd);
      } else {
        RotateRightKeeps(t.right, upd);
        RotateLeftKeeps(t.(right := RotateRight(t.right, upd)), upd);
      }
    }
  }

  lemma {:induction false} BalanceKeepsAug<E, A>(t: Tree<E, A>, upd: Update<E, A>)
    requires t.Branch? && RotationsSafe(t) && AugExact(t, upd)
    ensures AugExact(CheckAndBalance(t, upd), upd)
  {
    RotationsKeepAug(t, upd);
    if BalanceFactor(t) >= 2 && BalanceFactor(t.left) <= 0 {
      RotationsKeepAug(t.left, upd);
      RotationsKeepAug(t.(left := RotateLeft(t.left, upd)), upd);
    } else if BalanceFactor(t) <= -2 && BalanceFactor(t.right) >= 0 {
      RotationsKeepAug(t.right, upd);
      RotationsKeepAug(t.(right := RotateRight(t.right, upd)), upd);
    }
  }

  lemma {:induction false} SettleKeeps<E, A>(t: Tree<E, A>, upd: Update<E, A>)
    requires t.Branch? && DepthsExact(t.left) && DepthsExact(t.right)
    ensures InOrder(Settle(t, upd)) == InOrder(t)
    ensures AugExact(t.left, upd) && AugExact(t.right, upd) ==> AugExact(Settle(t, upd), upd)
  {
    RefreshIsExact(t, upd);
    BalanceKeeps(Refresh(t, upd), upd);
    if AugExact(t.left, upd) && AugExact(t.right, upd) {
      BalanceKeepsAug(Refresh(t, upd), upd);
    }
  }
}
