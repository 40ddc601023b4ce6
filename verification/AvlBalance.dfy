/** What `avl_remove` does to the balance of the tree (avl.c:180-213, 273-294). */
module AvlBalance {
  import opened AvlTree
  import opened AvlPath
  import opened AvlInsert
  import opened AvlRemove

  /** The position's surroundings are those of an AVL tree in which the subtree there has height `h`. */
  ghost predicate CtxBalanced<E, A>(c: Ctx<E, A>, h: int) {
    match c
    case Top => true
    case InLeft(up, e, d, a, right) =>
      Balanced(right) && Near(h, Height(right)) && CtxBalanced(up, 1 + Max(h, Height(right)))
    case InRight(up, left, e, d, a) =>
      Balanced(left) && Near(h, Height(left)) && CtxBalanced(up, 1 + Max(h, Height(left)))
  }

  lemma {:induction false} CtxOfBalanced<E, A>(c: Ctx<E, A>, t: Tree<E, A>)
    requires Balanced(Plug(c, t))
    ensures Balanced(t) && CtxBalanced(c, Height(t))
  {
    if !c.Top? { CtxOfBalanced(c.up, Above(c, t)); }
  }

  /** The subtree at the position had height `h` and is about to lose one level. Does every step above it
  restore the AVL condition? Told from the tree as it was: a taller sibling is rotated up, and only an even
  one whose inner child leans outward is missed; the loss goes on upwards unless the sibling was as tall, or
  is even. */
  ghost predicate Absorbs<E, A>(c: Ctx<E, A>, h: int) {
    match c
    case Top => true
    case InLeft(up, e, d, a, right) =>
      if Height(right) == h then true
      else if Height(right) < h then Absorbs(up, h + 1)
      else if right.Branch? && Lean(right) == 0 then Inward(right, true)
      else Absorbs(up, h + 2)
    case InRight(up, left, e, d, a) =>
      if Height(left) == h then true
      else if Height(left) < h then Absorbs(up, h + 1)
      else if left.Branch? && Lean(left) == 0 then Inward(left, false)
      else Absorbs(up, h + 2)
  }

  /** What a step to the right makes of a tree leaning left by two or more. */
  function TurnedRight<E, A>(t: Tree<E, A>, upd: Update<E, A>, double: bool): (r: Tree<E, A>)
    requires t.Branch? && t.left.Branch? && (double ==> t.left.right.Branch?)
  {
    var l, x := t.left, t.left.right;
    if double then
      Make(Make(l.left, l.entry, x.left, upd), x.entry, Make(Refresh(x.right, upd), t.entry, t.right, upd), upd)
    else
      Make(Refresh(l.left, upd), l.entry, Make(l.right, t.entry, t.right, upd), upd)
  }

  lemma {:induction false} SettleRight<E, A>(t: Tree<E, A>, upd: Update<E, A>)
    requires t.Branch? && DepthsExact(t.left) && DepthsExact(t.right) && Lean(t) >= 2
    ensures t.left.Branch? && (Lean(t.left) <= 0 ==> t.left.right.Branch?)
    ensures Settle(t, upd) == TurnedRight(t, upd, Lean(t.left) <= 0)
  {
    ExactDepth(t.left);
    ExactDepth(t.right);
    ExactDepth(t.left.left);
    ExactDepth(t.left.right);
  }

  /** And to the left, of one leaning right. */
  function TurnedLeft<E, A>(t: Tree<E, A>, upd: Update<E, A>, double: bool): (r: Tree<E, A>)
    requires t.Branch? && t.right.Branch? && (double ==> t.right.left.Branch?)
  {
    var l, x := t.right, t.right.left;
    if double then
      Make(Make(t.left, t.entry, Refresh(x.left, upd), upd), x.entry, Make(x.right, l.entry, l.right, upd), upd)
    else
      Make(Make(t.left, t.entry, l.left, upd), l.entry, Refresh(l.right, upd), upd)
  }

  lemma {:induction false} SettleLeft<E, A>(t: Tree<E, A>, upd: Update<E, A>)
    requires t.Branch? && DepthsExact(t.left) && DepthsExact(t.right) && Lean(t) <= -2
    ensures t.right.Branch? && (Lean(t.right) >= 0 ==> t.right.left.Branch?)
    ensures Settle(t, upd) == TurnedLeft(t, upd, Lean(t.right) >= 0)
  {
    ExactDepth(t.left);
    ExactDepth(t.right);
    ExactDepth(t.right.left);
    ExactDepth(t.right.right);
  }

  lemma {:induction false} TurnedRightHeight<E, A>(t: Tree<E, A>, upd: Update<E, A>, double: bool)
    requires t.Branch? && t.left.Branch? && (double ==> t.left.right.Branch?)
    ensures var (r, l, x) := (TurnedRight(t, upd, double), t.left, t.left.right);
      && (double ==> Height(r.left) == 1 + Max(Height(l.left), Height(x.left))
                     && Height(r.right) == 1 + Max(Height(x.right), Height(t.right)))
      && (!double ==> Height(r.left) == Height(l.left) && Height(r.right) == 1 + Max(Height(l.right), Height(t.right)))
      && Height(r) == 1 + Max(Height(r.left), Height(r.right))
  {
    if double { RefreshBalance(t.left.right.right, upd); } else { RefreshBalance(t.left.left, upd); }
  }

  lemma {:induction false} TurnedLeftHeight<E, A>(t: Tree<E, A>, upd: Update<E, A>, double: bool)
    requires t.Branch? && t.right.Branch? && (double ==> t.right.left.Branch?)
    ensures var (r, l, x) := (TurnedLeft(t, upd, double), t.right, t.right.left);
      && (double ==> Height(r.left) == 1 + Max(Height(t.left), Height(x.left))
                     && Height(r.right) == 1 + Max(Height(x.right), Height(l.right)))
      && (!double ==> Height(r.left) == 1 + Max(Height(t.left), Height(l.left)) && Height(r.right) == Height(l.right))
      && Height(r) == 1 + Max(Height(r.left), Height(r.right))
  {
    if double { RefreshBalance(t.right.left.left, upd); } else { RefreshBalance(t.right.right, upd); }
  }

  /** Rotating up an even child leaves the height as it was, whether or not the rotation misses. */
  lemma {:induction false} EvenKeepsHeight<E, A>(t: Tree<E, A>, upd: Update<E, A>)
    requires t.Branch? && DepthsExact(t.left) && DepthsExact(t.right)
    requires (Lean(t) == 2 && t.left.Branch? && Lean(t.left) == 0) ||
      (Lean(t) == -2 && t.right.Branch? && Lean(t.right) == 0)
    ensures Height(Settle(t, upd)) == 1 + Max(Height(t.left), Height(t.right))
  {
    if Lean(t) == 2 {
      SettleRight(t, upd);
      TurnedRightHeight(t, upd, true);
    } else {
      SettleLeft(t, upd);
      TurnedLeftHeight(t, upd, true);
    }
  }

  lemma {:induction false} RefreshOnly<E, A>(t: Tree<E, A>, upd: Update<E, A>)
    requires t.Branch? && DepthsExact(t.left) && DepthsExact(t.right) && -1 <= Lean(t) <= 1
    ensures Settle(t, upd) == Refresh(t, upd) && Height(Settle(t, upd)) == 1 + Max(Height(t.left), Height(t.right))
  {
    ExactDepth(t.left);
    ExactDepth(t.right);
    RefreshBalance(t, upd);
  }

  /** Where the height is what it was no rotation happens, and the climb changes nothing. */
  lemma {:induction false} SameHeightBalance<E, A>(c: Ctx<E, A>, s: Tree<E, A>, upd: Update<E, A>)
    requires DepthsExact(s) && SidesExact(c) && CtxBalanced(c, Height(s)) && !c.Top?
    ensures Balanced(Bubble(c.up, Above(c, s), upd)) <==> Balanced(s)
    decreases c
  {
    var r := SameStep(c, s, upd);
    if !c.up.Top? { SameHeightBalance(c.up, r, upd); }
  }

  lemma {:induction false} SameStep<E, A>(c: Ctx<E, A>, s: Tree<E, A>, upd: Update<E, A>) returns (r: Tree<E, A>)
    requires DepthsExact(s) && SidesExact(c) && CtxBalanced(c, Height(s)) && !c.Top?
    ensures DepthsExact(r) && SidesExact(c.up) && CtxBalanced(c.up, Height(r)) && (Balanced(r) <==> Balanced(s))
    ensures Bubble(c.up, Above(c, s), upd) == if c.up.Top? then r else Bubble(c.up.up, Above(c.up, r), upd)
  {
    LevelAbove(c, s);
    r := SettleLevel(Above(c, s), upd);
    assert r == Settle(Above(c, s), upd);
  }

  lemma {:induction false} LevelAbove<E, A>(c: Ctx<E, A>, s: Tree<E, A>)
    requires !c.Top? && DepthsExact(s) && SidesExact(c) && CtxBalanced(c, Height(s))
    ensures var t := Above(c, s);
      && DepthsExact(t.left) && DepthsExact(t.right) && -1 <= Lean(t) <= 1 && (Balanced(t) <==> Balanced(s))
      && SidesExact(c.up) && CtxBalanced(c.up, Height(t))
  {
  }

  lemma {:induction false} SettleLevel<E, A>(t: Tree<E, A>, upd: Update<E, A>) returns (r: Tree<E, A>)
    requires t.Branch? && DepthsExact(t.left) && DepthsExact(t.right) && -1 <= Lean(t) <= 1
    ensures r == Settle(t, upd) && DepthsExact(r) && Height(r) == Height(t) && (Balanced(r) <==> Balanced(t))
  {
    RefreshOnly(t, upd);
    RefreshBalance(t, upd);
    r := Settle(t, upd);
  }

  /** The height of the subtree beside the position. */
  ghost function Sibling<E, A>(c: Ctx<E, A>): int
    requires !c.Top?
  {
    if c.InLeft? then Height(c.right) else Height(c.left)
  }

  /** The climb from a subtree that lost one level of height `h` ends in an AVL tree exactly when its
  surroundings absorb the loss. */
  lemma {:induction false} ClimbBalance<E, A>(c: Ctx<E, A>, s: Tree<E, A>, upd: Update<E, A>, h: int)
    requires !c.Top? && DepthsExact(s) && SidesExact(c) && CtxBalanced(c, h) && Balanced(s) && Height(s) == h - 1
    ensures Balanced(Bubble(c.up, Above(c, s), upd)) <==> Absorbs(c, h)
    decreases c
  {
    var t := Above(c, s);
    StepUp(c, s, upd, h);
    var r := Settle(t, upd);
    if !c.up.Top? {
      if Height(r) == 1 + Max(h, Sibling(c)) {
        SameHeightBalance(c.up, r, upd);
      } else {
        ClimbBalance(c.up, r, upd, 1 + Max(h, Sibling(c)));
      }
    }
  }

  /** One step of that climb: what becomes of the height, and whether the step misses. */
  lemma {:induction false} StepUp<E, A>(c: Ctx<E, A>, s: Tree<E, A>, upd: Update<E, A>, h: int)
    requires !c.Top? && DepthsExact(s) && SidesExact(c) && CtxBalanced(c, h) && Balanced(s) && Height(s) == h - 1
    ensures var (r, g) := (Settle(Above(c, s), upd), 1 + Max(h, Sibling(c)));
      && Height(r) == g - (if LosesAbove(c, h) then 1 else 0)
      && (LosesAbove(c, h) ==> Balanced(r) && (Absorbs(c, h) <==> Absorbs(c.up, g)))
      && (!LosesAbove(c, h) ==> (Balanced(r) <==> Absorbs(c, h)))
  {
    var t, sib := Above(c, s), Sibling(c);
    AbsorbsStep(c, h, sib);
    if sib <= h {
      RefreshOnly(t, upd);
      RefreshBalance(t, upd);
    } else {
      TurnUp(t, upd, c.InLeft?, h);
    }
  }

  /** The definition of `Absorbs`, one level up. */
  lemma {:induction false} AbsorbsStep<E, A>(c: Ctx<E, A>, h: int, sib: int)
    requires !c.Top? && sib == Sibling(c) && Near(h, sib)
    ensures sib == h ==> Absorbs(c, h) && !LosesAbove(c, h)
    ensures sib < h ==> (Absorbs(c, h) <==> Absorbs(c.up, 1 + Max(h, sib))) && LosesAbove(c, h)
    ensures var t := if c.InLeft? then c.right else c.left;
      sib > h && t.Branch? ==>
        && (LosesAbove(c, h) <==> Lean(t) != 0)
        && (Absorbs(c, h) <==> if Lean(t) == 0 then Inward(t, c.InLeft?) else Absorbs(c.up, 1 + Max(h, sib)))
  {
  }

  /** The inner child of a sibling on the other side does not lean outward. */
  ghost predicate Inward<E, A>(sib: Tree<E, A>, left: bool)
    requires sib.Branch?
  {
    if left then sib.left.Branch? ==> Lean(sib.left) <= 0 else sib.right.Branch? ==> Lean(sib.right) >= 0
  }

  /** The step that rotates a taller sibling up. */
  lemma {:induction false} TurnUp<E, A>(t: Tree<E, A>, upd: Update<E, A>, left: bool, h: int)
    requires t.Branch? && DepthsExact(t.left) && DepthsExact(t.right) && Balanced(t.left) && Balanced(t.right)
    requires
      if left then Height(t.left) == h - 1 && Height(t.right) == h + 1
      else Height(t.right) == h - 1 && Height(t.left) == h + 1
    ensures var sib := if left then t.right else t.left;
      && sib.Branch? && Height(Settle(t, upd)) == h + (if Lean(sib) == 0 then 2 else 1)
      && (Balanced(Settle(t, upd)) <==> (Lean(sib) == 0 ==> Inward(sib, left)))
  {
    SettleBalances(t, upd);
    if Lean(if left then t.right else t.left) == 0 { EvenKeepsHeight(t, upd); }
  }

  /** The subtree around the position, of which one side had height `h`, becomes lower too. */
  ghost predicate LosesAbove<E, A>(c: Ctx<E, A>, h: int)
    requires !c.Top?
  {
    var sib := if c.InLeft? then c.right else c.left;
    Height(sib) != h && (Height(sib) > h && sib.Branch? ==> Lean(sib) != 0)
  }

  lemma {:induction false} HeightPositive<E, A>(t: Tree<E, A>)
    ensures Height(t) >= -1 && (Height(t) == -1 <==> t.Leaf?)
  {
    if t.Branch? {
      HeightPositive(t.left);
      HeightPositive(t.right);
    }
  }

  /** Removing a node with at most one child from an AVL tree: the result is an AVL tree exactly when the
  tree around the node absorbs the loss of one level. */
  lemma {:induction false} DetachBalance<E, A>(c: Ctx<E, A>, t: Tree<E, A>, upd: Update<E, A>)
    requires t.Branch? && (t.left.Leaf? || t.right.Leaf?) && !c.Top?
    requires DepthsExact(Plug(c, t)) && Balanced(Plug(c, t))
    ensures SidesExact(c) && DepthsExact(t)
    ensures var child := if t.left.Branch? then t.left else t.right;
      && Detach(c, child, upd).Removed?
      && (Balanced(Detach(c, child, upd).tree) <==> Absorbs(c, Height(t)))
  {
    SidesOfExact(c, t);
    CtxOfBalanced(c, t);
    var child := if t.left.Branch? then t.left else t.right;
    HeightPositive(child);
    ClimbBalance(c, child, upd, Height(t));
  }

  // ----- a removal that leaves the tree out of balance -----

  function NoCache(e: int, l: Option<int>, r: Option<int>): int { 0 }

  function Node(l: Tree<int, int>, e: int, r: Tree<int, int>): Tree<int, int> { Make(l, e, r, NoCache) }

  /** The left half: an even child whose inner child leans outward. */
  function Tall(): Tree<int, int> {
    Node(Node(Node(Leaf, 1, Leaf), 2, Leaf), 3, Node(Leaf, 4, Node(Leaf, 5, Leaf)))
  }

  /** Where 8 hangs: the right child of 7, the right child of the root 6. */
  function Place8(): Ctx<int, int> {
    InRight(InRight(Top, Tall(), 6, 3, 0), Leaf, 7, 1, 0)
  }

  /** Removing 8 from this AVL tree of eight entries leaves one that is not. */
  lemma {:induction false} RemovalUnbalances()
    ensures var t := Node(Leaf, 8, Leaf);
      && DepthsExact(Plug(Place8(), t)) && Balanced(Plug(Place8(), t))
      && Remove(Place8(), t, NoCache).Removed? && !Balanced(Remove(Place8(), t, NoCache).tree)
  {
    var t, c := Node(Leaf, 8, Leaf), Place8();
    TallShape();
    assert Plug(c, t) == Plug(c.up, Above(c, t)) == Above(c.up, Above(c, t));
    DetachBalance(c, t, NoCache);
  }

  lemma {:induction false} TallShape()
    ensures var t := Tall();
      && t.Branch? && t.right.Branch? && DepthsExact(t) && Balanced(t) && Height(t) == 2
      && Lean(t) == 0 && Lean(t.right) == -1
  {
    var one, five := Node(Leaf, 1, Leaf), Node(Leaf, 5, Leaf);
    assert Height(one) == 0 && Height(five) == 0 && Depth(one) == 0 && Depth(five) == 0;
    var two, four := Node(one, 2, Leaf), Node(Leaf, 4, five);
    assert Height(two) == 1 && Height(four) == 1 && Depth(two) == 1 && Depth(four) == 1;
  }
}
