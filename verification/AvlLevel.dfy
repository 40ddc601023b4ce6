/** When `avl_remove` (avl.c:56-108) leaves an AVL tree an AVL tree, for every node it takes out. */
module AvlLevel {
  import opened Seqs
  import opened AvlTree
  import opened AvlPath
  import opened AvlInsert
  import opened AvlRemove
  import opened AvlBalance
  import opened AvlTwoChild

  /** What hangs at a position matters to the balance of the whole by its height and its own balance only. */
  lemma {:induction false} PlugBalance<E, A>(c: Ctx<E, A>, s: Tree<E, A>, r: Tree<E, A>)
    requires Height(s) == Height(r) && (Balanced(s) <==> Balanced(r))
    ensures Balanced(Plug(c, s)) <==> Balanced(Plug(c, r))
  {
    if !c.Top? {
      LevelAlike(c, s, r);
      PlugBalance(c.up, Above(c, s), Above(c, r));
    }
  }

  lemma {:induction false} LevelAlike<E, A>(c: Ctx<E, A>, s: Tree<E, A>, r: Tree<E, A>)
    requires !c.Top? && Height(s) == Height(r) && (Balanced(s) <==> Balanced(r))
    ensures Height(Above(c, s)) == Height(Above(c, r)) && (Balanced(Above(c, s)) <==> Balanced(Above(c, r)))
  {
  }

  /** Where no ancestor rotates, a climb leaves the balance of the whole as it is. */
  lemma {:induction false} QuietClimb<E, A>(c: Ctx<E, A>, s: Tree<E, A>, upd: Update<E, A>)
    requires s.Branch? && DepthsExact(s.left) && DepthsExact(s.right) && -1 <= Lean(s) <= 1
    requires SidesExact(c) && Withstands(c, Height(s), 0)
    ensures Balanced(Bubble(c, s, upd)) <==> Balanced(Plug(c, s))
    decreases c
  {
    var r := SettleLevel(s, upd);
    PlugBalance(c, s, r);
    if !c.Top? {
      UpOne(c, Height(r), 0, Sibling(c), 1 + Max(Height(r), Sibling(c)));
      QuietClimb(c.up, Above(c, r), upd);
    }
  }

  /** The node whose place is closed up: the one to remove or, if it has two children, its successor. */
  ghost function Spot<E, A>(c: Ctx<E, A>, t: Tree<E, A>): (r: (Ctx<E, A>, Tree<E, A>))
    requires t.Branch?
    ensures r.1.Branch? && (r.1.left.Leaf? || r.1.right.Leaf?) && Plug(r.0, r.1) == Plug(c, t)
  {
    if t.left.Leaf? || t.right.Leaf? then (c, t) else Victim(c, t)
  }

  /** The tree around that place absorbs the loss of a level. */
  ghost predicate StaysAvl<E, A>(c: Ctx<E, A>, t: Tree<E, A>)
    requires t.Branch?
  {
    var (d, s) := Spot(c, t);
    Absorbs(d, Height(s))
  }

  /** Taking out the successor. */
  lemma {:induction false} VictimBalance<E, A>(c: Ctx<E, A>, t: Tree<E, A>, upd: Update<E, A>)
    requires t.Branch? && t.right.Branch? && DepthsExact(Plug(c, t)) && Balanced(Plug(c, t))
    ensures var (vc, v) := Victim(c, t); Balanced(WithoutVictim(c, t, upd)) <==> Absorbs(vc, Height(v))
  {
    var (vc, v) := Victim(c, t);
    DetachBalance(vc, v, upd);
  }

  /** Putting it in the node's place changes no height, and nothing rotates any more. */
  lemma {:induction false} TakeOverBalance<E, A>(d: Ctx<E, A>, s: Tree<E, A>, v: Tree<E, A>, upd: Update<E, A>)
    requires s.Branch? && v.Branch? && SidesExact(d) && DepthsExact(s) && Near(Height(s.left), Height(s.right))
    requires Withstands(d, Height(s), 0) && TakeOver(d, s, v, upd).Removed?
    ensures Balanced(TakeOver(d, s, v, upd).tree) <==> Balanced(Plug(d, s))
  {
    var u := Impersonate(s, v);
    assert Height(u) == Height(s) && (Balanced(u) <==> Balanced(s));
    QuietClimb(d, u, upd);
    PlugBalance(d, u, s);
  }

  /** The node once its successor is gone. */
  lemma {:induction false} AfterVictim<E, A>(c: Ctx<E, A>, t: Tree<E, A>, upd: Update<E, A>)
      returns (d: Ctx<E, A>, s: Tree<E, A>)
    requires t.Branch? && t.right.Branch?
    requires DepthsExact(Plug(c, t)) && Balanced(Plug(c, t)) && Distinct(InOrder(Plug(c, t)))
    ensures Refocus(c, t, upd) == (d, s) && Plug(d, s) == WithoutVictim(c, t, upd)
    ensures s.Branch? && Near(Height(s.left), Height(s.right)) && Withstands(d, Height(s), 0)
  {
    SidesOfExact(c, t);
    CtxOfBalanced(c, t);
    BalancedWithstands(c, Height(t));
    DropMinHeight(t.right, upd);
    WithoutVictimIs(c, t, upd);
    d, s := FocusMoves(c, t, DropMin(t.right, upd), upd, 2);
    RefocusIs(c, t, upd, d, s);
  }

  lemma {:induction false} TwoChildBalance<E, A>(c: Ctx<E, A>, t: Tree<E, A>, upd: Update<E, A>)
    requires t.Branch? && t.left.Branch? && t.right.Branch?
    requires DepthsExact(Plug(c, t)) && Balanced(Plug(c, t)) && Distinct(InOrder(Plug(c, t)))
    requires Remove(c, t, upd).Removed?
    ensures var (vc, v) := Victim(c, t); Balanced(Remove(c, t, upd).tree) <==> Absorbs(vc, Height(v))
  {
    var d, s := AfterVictim(c, t, upd);
    TakeOverBalance(d, s, Victim(c, t).1, upd);
    VictimBalance(c, t, upd);
  }

  /** A removal that goes through leaves an AVL tree exactly when the tree before it absorbs the loss of a level
  where the place is closed up. */
  lemma {:induction false} RemovalBalance<E, A>(c: Ctx<E, A>, t: Tree<E, A>, upd: Update<E, A>)
    requires t.Branch? && DepthsExact(Plug(c, t)) && Balanced(Plug(c, t)) && Distinct(InOrder(Plug(c, t)))
    requires Remove(c, t, upd).Removed?
    ensures Balanced(Remove(c, t, upd).tree) <==> StaysAvl(c, t)
  {
    if t.left.Branch? && t.right.Branch? {
      TwoChildBalance(c, t, upd);
    } else if !c.Top? {
      DetachBalance(c, t, upd);
    }
  }
}
