/** The outcome of a removal depends on the shape of the tree only, not on what its nodes hold. */
module AvlShape {
  import opened AvlTree
  import opened AvlPath
  import opened AvlInsert
  import opened AvlRemove
  import opened AvlBalance
  import opened AvlLevel
  import opened AvlTwoChild
  import opened AvlPair
  import opened AvlStale
  import opened AvlStalePair

  ghost predicate SameShape<E, A>(t: Tree<E, A>, u: Tree<E, A>) {
    (t.Leaf? <==> u.Leaf?) && (t.Branch? && u.Branch? ==> SameShape(t.left, u.left) && SameShape(t.right, u.right))
  }

  ghost predicate SameCtx<E, A>(c: Ctx<E, A>, d: Ctx<E, A>) {
    match (c, d)
    case (Top, Top) => true
    case (InLeft(up, _, _, _, r), InLeft(up', _, _, _, r')) => SameCtx(up, up') && SameShape(r, r')
    case (InRight(up, l, _, _, _), InRight(up', l', _, _, _)) => SameCtx(up, up') && SameShape(l, l')
    case _ => false
  }

  lemma {:induction false} SameHeight<E, A>(t: Tree<E, A>, u: Tree<E, A>)
    requires SameShape(t, u)
    ensures Height(t) == Height(u) && |InOrder(t)| == |InOrder(u)|
  {
    if t.Branch? {
      SameHeight(t.left, u.left);
      SameHeight(t.right, u.right);
    }
  }

  lemma {:induction false} ShapeItself<E, A>(t: Tree<E, A>)
    ensures SameShape(t, t)
  {
    if t.Branch? {
      ShapeItself(t.left);
      ShapeItself(t.right);
    }
  }

  /** A store changes no shape. */
  lemma {:induction false} StoreShape<E, A>(t: Tree<E, A>, j: int, x: E)
    requires 0 <= j < |InOrder(t)|
    ensures SameShape(t, SetAt(t, j, x))
  {
    var n := |InOrder(t.left)|;
    ShapeItself(t.left);
    ShapeItself(t.right);
    if j < n { StoreShape(t.left, j, x); } else if j > n { StoreShape(t.right, j - n - 1, x); }
  }

  lemma {:induction false} SameLean<E, A>(t: Tree<E, A>, u: Tree<E, A>)
    requires SameShape(t, u) && t.Branch?
    ensures Lean(t) == Lean(u)
  {
    SameHeight(t.left, u.left);
    SameHeight(t.right, u.right);
  }

  lemma {:induction false} SameSmall<E, A>(t: Tree<E, A>, u: Tree<E, A>)
    requires SameShape(t, u)
    ensures Alone(t) == Alone(u) && Several(t) == Several(u) && Couple(t) == Couple(u)
  {
    if t.Branch? { assert SameShape(t.left, u.left) && SameShape(t.right, u.right); }
  }

  lemma {:induction false} SameStranded<E, A>(t: Tree<E, A>, u: Tree<E, A>)
    requires SameShape(t, u) && t.Branch?
    ensures Stranded(t) == Stranded(u)
  {
    SameLean(t, u);
    assert SameShape(t.right, u.right);
    if t.right.Branch? { assert SameShape(t.right.right, u.right.right); }
  }

  lemma {:induction false} SameMinShrinks<E, A>(t: Tree<E, A>, u: Tree<E, A>)
    requires SameShape(t, u) && t.Branch?
    ensures MinShrinks(t) == MinShrinks(u)
  {
    SameLean(t, u);
    if t.right.Branch? { SameLean(t.right, u.right); }
    if t.left.Branch? { SameMinShrinks(t.left, u.left); }
  }

  lemma {:induction false} SameMinsLost<E, A>(t: Tree<E, A>, u: Tree<E, A>)
    requires SameShape(t, u) && Several(t)
    ensures Several(u) && MinsLost(t) == MinsLost(u)
  {
    SameLean(t, u);
    SameSmall(t, u);
    SameSmall(t.left, u.left);
    if t.right.Branch? {
      SameLean(t.right, u.right);
      if t.right.left.Branch? { SameLean(t.right.left, u.right.left); }
    }
    if Several(t.left) {
      SameMinShrinks(t.left, u.left);
      SameMinsLost(t.left, u.left);
    }
  }

  lemma {:induction false} SameRemovable<E, A>(c: Ctx<E, A>, t: Tree<E, A>, d: Ctx<E, A>, u: Tree<E, A>)
    requires SameCtx(c, d) && SameShape(t, u) && t.Branch?
    ensures Removable(c, t) == Removable(d, u) && t.right.Branch? == u.right.Branch?
    ensures t.right.Branch? ==> RemovableAfter(c, t) == RemovableAfter(d, u)
  {
    SameLean(t, u);
    SameSmall(t, u);
    if t.left.Branch? { SameStranded(t.left, u.left); }
    if t.right.Branch? {
      SameSmall(t.right, u.right);
      SameMinShrinks(t.right, u.right);
      if Several(t.right) { SameMinsLost(t.right, u.right); }
    }
  }

  lemma {:induction false} SameRenews<E, A>(l: Tree<E, A>, k: Tree<E, A>)
    requires SameShape(l, k) && l.Branch?
    ensures Renews(l) == Renews(k)
  {
    SameLean(l, k);
    assert SameShape(l.right, k.right);
    if l.right.Branch? {
      assert SameShape(l.right.right, k.right.right);
      if l.right.right.Branch? { assert SameShape(l.right.right.right, k.right.right.right); }
    }
  }

  lemma {:induction false} SameRenewing<E, A>(s: Tree<E, A>, m: Tree<E, A>, s': Tree<E, A>, m': Tree<E, A>)
    requires SameShape(s, s') && SameShape(m, m') && s.Branch? && m.Branch?
    ensures Renewing(s, m) == Renewing(s', m') && PairRenewing(s, m) == PairRenewing(s', m')
  {
    assert SameShape(s.right, s'.right) && SameShape(m.left, m'.left) && SameShape(m.right, m'.right);
    SameLean(m, m');
    if m.left.Branch? { SameRenews(m.left, m'.left); }
    if m.right.Branch? {
      SameMinShrinks(m.right, m'.right);
      SameSmall(m.right, m'.right);
      if Several(m.right) { SameMinsLost(m.right, m'.right); }
    }
  }

  lemma {:induction false} SameFocus<E, A>(c: Ctx<E, A>, t: Tree<E, A>, d: Ctx<E, A>, u: Tree<E, A>, k: int)
    requires SameCtx(c, d) && SameShape(t, u) && 0 <= k < |InOrder(t)|
    ensures k < |InOrder(u)|
    ensures SameCtx(FocusAt(c, t, k).0, FocusAt(d, u, k).0) && SameShape(FocusAt(c, t, k).1, FocusAt(d, u, k).1)
    decreases t
  {
    SameHeight(t, u);
    SameHeight(t.left, u.left);
    var n := |InOrder(t.left)|;
    if k < n {
      SameFocus(InLeft(c, t.entry, t.depth, t.aug, t.right), t.left, InLeft(d, u.entry, u.depth, u.aug, u.right),
        u.left, k);
    } else if k > n {
      SameFocus(InRight(c, t.left, t.entry, t.depth, t.aug), t.right, InRight(d, u.left, u.entry, u.depth, u.aug),
        u.right, k - n - 1);
    }
  }

  lemma {:induction false} SameInward<E, A>(t: Tree<E, A>, u: Tree<E, A>, left: bool)
    requires SameShape(t, u) && t.Branch?
    ensures Inward(t, left) == Inward(u, left)
  {
    assert SameShape(t.left, u.left) && SameShape(t.right, u.right);
    if left && t.left.Branch? { SameLean(t.left, u.left); }
    if !left && t.right.Branch? { SameLean(t.right, u.right); }
  }

  lemma {:induction false} SameAbsorbs<E, A>(c: Ctx<E, A>, d: Ctx<E, A>, h: int)
    requires SameCtx(c, d)
    ensures Absorbs(c, h) == Absorbs(d, h)
  {
    if !c.Top? {
      var s, u := Beside(c), Beside(d);
      SameHeight(s, u);
      if s.Branch? {
        SameLean(s, u);
        SameInward(s, u, c.InLeft?);
      }
      SameAbsorbs(c.up, d.up, h + 1);
      SameAbsorbs(c.up, d.up, h + 2);
    }
  }

  lemma {:induction false} SameLeftmost<E, A>(c: Ctx<E, A>, t: Tree<E, A>, d: Ctx<E, A>, u: Tree<E, A>)
    requires SameCtx(c, d) && SameShape(t, u) && t.Branch?
    ensures SameCtx(Leftmost(c, t).0, Leftmost(d, u).0) && SameShape(Leftmost(c, t).1, Leftmost(d, u).1)
    decreases t
  {
    if t.left.Branch? {
      SameLeftmost(InLeft(c, t.entry, t.depth, t.aug, t.right), t.left, InLeft(d, u.entry, u.depth, u.aug, u.right),
        u.left);
    }
  }

  lemma {:induction false} SameStaysAvl<E, A>(c: Ctx<E, A>, t: Tree<E, A>, d: Ctx<E, A>, u: Tree<E, A>)
    requires SameCtx(c, d) && SameShape(t, u) && t.Branch?
    ensures StaysAvl(c, t) == StaysAvl(d, u)
  {
    if t.left.Branch? && t.right.Branch? {
      SameLeftmost(InRight(c, t.left, t.entry, t.depth, t.aug), t.right, InRight(d, u.left, u.entry, u.depth, u.aug),
        u.right);
    }
    var ((e, s), (f, r)) := (Spot(c, t), Spot(d, u));
    SameHeight(s, r);
    SameAbsorbs(e, f, Height(s));
  }
}
