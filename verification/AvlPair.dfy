/** Two removals in a row on an AVL tree: a node's successor and then the node itself, which is what freeing
a region between two free ones asks of `avl_remove` (vma.c:231-248). The first removal can leave the tree out of
balance; the outcome of the second is still told from the tree before both. */
module AvlPair {
  import opened Seqs
  import opened AvlTree
  import opened AvlPath
  import opened AvlInsert
  import opened AvlRemove
  import opened AvlBalance
  import opened AvlTwoChild

  /** How many levels a tree loses when its first two entries go, by the leans down its left spine. */
  ghost function MinsLost<E, A>(t: Tree<E, A>): int
    requires t.Branch? && (t.left.Branch? || t.right.Branch?)
  {
    var uneven := t.right.Branch? && Lean(t.right) != 0;
    if t.left.Leaf? then 2
    else if Alone(t.left) then (if Lean(t) > 0 then 2 else 1)
    else if Lean(t) > 0 then (if MinShrinks(t.left) then 1 else MinsLost(t.left))
    else if Lean(t) == 0 then (if MinsLost(t.left) == 2 && uneven then 1 else 0)
    else if !MinShrinks(t.left) then (if MinsLost(t.left) == 1 && uneven then 1 else 0)
    else if uneven then 1
    else if MinsLost(t.left) == 2 && t.right.Branch? && t.right.left.Branch? && Lean(t.right.left) < 0 then 1
    else 0
  }

  ghost predicate Several<E, A>(t: Tree<E, A>) { t.Branch? && !Alone(t) }

  /** The height after a rotation to the left. */
  lemma {:induction false} TurnLeftLoss<E, A>(t: Tree<E, A>, upd: Update<E, A>)
    requires t.Branch? && DepthsExact(t.left) && DepthsExact(t.right) && Balanced(t.right)
    requires Height(t.right) == Height(t.left) + 2
    ensures t.right.Branch? && Height(Settle(t, upd)) == Height(t.right) + (if Lean(t.right) == 0 then 1 else 0)
  {
    SettleLeft(t, upd);
    TurnedLeftHeight(t, upd, Lean(t.right) >= 0);
  }

  /** The second entry goes where the first went without a rotation: the left subtree is now `l`. */
  lemma {:induction false} SecondStays<E, A>(t: Tree<E, A>, l: Tree<E, A>, upd: Update<E, A>, lost: int)
    requires t.Branch? && t.left.Branch? && DepthsExact(t) && Balanced(t) && DepthsExact(l)
    requires Height(l) == Height(t.left) - lost && 0 <= lost <= 2 && Lean(t) - lost >= -2
    ensures Height(Settle(t.(left := l), upd)) == Height(t)
            - (if Lean(t) - lost == -2 then (if t.right.Branch? && Lean(t.right) != 0 then 1 else 0)
               else if Lean(t) == 1 && lost > 0 then 1 else 0)
  {
    var u := t.(left := l);
    if Lean(t) - lost == -2 {
      TurnLeftLoss(u, upd);
    } else {
      RefreshOnly(u, upd);
    }
  }

  /** Or with one: `m` is the height of what the first removal left, `l` what the second leaves. */
  lemma {:induction false} SecondTurned<E, A>(r: Tree<E, A>, l: Tree<E, A>, upd: Update<E, A>, m: int)
    requires r.Branch? && r.left.Branch? && DepthsExact(r.left.right) && DepthsExact(r.right) && DepthsExact(l)
    requires Height(r.left.left) == m && m - 1 <= Height(l) <= m
    requires m - 1 <= Height(r.left.right) <= m && m + 1 <= Height(r.right) <= m + 2
    requires Height(r.left.right) < m && Height(r.right) > m + 1 ==>
      Balanced(r.right) && r.right.Branch? && Lean(r.right) != 0
    ensures var u := Settle(r.left.(left := l), upd);
      Height(Settle(r.(left := u), upd)) ==
        Height(r) - (if Height(l) < m && Height(r.left.right) < m && Height(r.right) > m + 1 then 1 else 0)
  {
    var p := r.left.(left := l);
    RefreshOnly(p, upd);
    var u := Settle(p, upd);
    var v := r.(left := u);
    if Height(v.right) == Height(u) + 2 {
      TurnLeftLoss(v, upd);
    } else {
      RefreshOnly(v, upd);
    }
  }

  /** What the first rotation leaves, in those terms. */
  lemma {:induction false} FirstTurn<E, A>(t: Tree<E, A>, upd: Update<E, A>, m: int)
    requires t.Branch? && DepthsExact(t.left) && DepthsExact(t.right) && Balanced(t.right)
    requires Height(t.left) == m && Height(t.right) == m + 2
    ensures var r := Settle(t, upd);
      && t.right.Branch? && r.left.Branch? && r.left.left == t.left
      && m - 1 <= Height(r.left.right) <= m && m + 1 <= Height(r.right) <= m + 2
      && Height(r) == m + 2 + (if Lean(t.right) == 0 then 1 else 0)
      && (Height(r.right) > m + 1 && !DoubleRotationMisses(t) ==>
        Balanced(r.right) && r.right.Branch? && Lean(r.right) != 0)
      && (Height(r.left.right) < m ==> !DoubleRotationMisses(t))
      && (Height(r.left.right) < m && Height(r.right) > m + 1 <==>
            Lean(t.right) == 0 && t.right.left.Branch? && Lean(t.right.left) < 0)
  {
    TurnLeftPieces(t, upd, m);
    SettleLeft(t, upd);
    TurnedLeftHeight(t, upd, Lean(t.right) >= 0);
    HeightPositive(t.left);
    if Lean(t.right) >= 0 {
      var x := t.right.left;
      RefreshBalance(x.left, upd);
      MakeBalance(x.right, t.right.entry, t.right.right, upd);
    }
  }

  /** Both entries gone from a left subtree that had more. */
  lemma {:induction false} MinsLostStep<E, A>(t: Tree<E, A>, upd: Update<E, A>)
    requires DepthsExact(t) && Balanced(t) && t.Branch? && Several(t.left)
    requires var l := DropMin(t.left, upd);
      && l.Branch? && Height(l) == Height(t.left) - (if MinShrinks(t.left) then 1 else 0)
      && Height(DropMin(l, upd)) == Height(t.left) - MinsLost(t.left)
      && 0 <= MinsLost(t.left) - (if MinShrinks(t.left) then 1 else 0) <= 1
    ensures DropMin(t, upd).Branch? && Height(DropMin(DropMin(t, upd), upd)) == Height(t) - MinsLost(t)
  {
    var l := DropMin(t.left, upd);
    var l2 := DropMin(l, upd);
    var u := t.(left := l);
    var r := Settle(u, upd);
    HeightPositive(t.left);
    if Lean(u) >= -1 {
      RefreshOnly(u, upd);
      assert DropMin(r, upd) == Settle(r.(left := l2), upd);
      assert Settle(r.(left := l2), upd) == Settle(t.(left := l2), upd);
      SecondStays(t, l2, upd, MinsLost(t.left));
    } else {
      FirstTurn(u, upd, Height(l));
      assert DropMin(r.left, upd) == Settle(r.left.(left := l2), upd);
      SecondTurned(r, l2, upd, Height(l));
    }
  }

  /** The left subtree was the first entry; the root is the second. */
  lemma {:induction false} MinsLostTwo<E, A>(t: Tree<E, A>, upd: Update<E, A>)
    requires DepthsExact(t) && Balanced(t) && t.Branch? && Alone(t.left)
    ensures DropMin(t, upd).Branch? && Height(DropMin(DropMin(t, upd), upd)) == Height(t) - MinsLost(t)
  {
    var u := t.(left := Leaf);
    assert DropMin(t.left, upd) == Leaf;
    var r := Settle(u, upd);
    HeightPositive(t.right);
    if Lean(t) >= 0 {
      RefreshOnly(u, upd);
      assert DropMin(r, upd) == t.right;
    } else {
      FirstTurn(u, upd, -1);
      var l := r.left.right;
      HeightPositive(l);
      if t.right.left.Branch? { HeightPositive(t.right.left.left); HeightPositive(t.right.left.right); }
      assert DropMin(r.left, upd) == l;
      var v := r.(left := l);
      assert DropMin(r, upd) == Settle(v, upd);
      if Height(v.right) == 1 { TurnLeftLoss(v, upd); } else { RefreshOnly(v, upd); }
    }
  }

  lemma {:induction false} MinsLostHeight<E, A>(t: Tree<E, A>, upd: Update<E, A>)
    requires DepthsExact(t) && Balanced(t) && Several(t)
    ensures DropMin(t, upd).Branch? && Height(DropMin(DropMin(t, upd), upd)) == Height(t) - MinsLost(t)
    ensures 0 <= MinsLost(t) - (if MinShrinks(t) then 1 else 0) <= 1
  {
    HeightPositive(t.left);
    HeightPositive(t.right);
    if t.left.Leaf? {
      HeightPositive(t.right.left);
      HeightPositive(t.right.right);
    } else if Alone(t.left) {
      MinsLostTwo(t, upd);
    } else {
      MinsLostHeight(t.left, upd);
      DropMinHeight(t.left, upd);
      MinsLostStep(t, upd);
    }
  }

  // ----- the successor, then the node -----

  /** Two entries and no more, in an AVL tree. */
  ghost predicate Couple<E, A>(t: Tree<E, A>) { t.Branch? && (t.left.Leaf? <==> t.right.Branch?) }

  lemma {:induction false} AloneHeight<E, A>(t: Tree<E, A>)
    ensures Alone(t) <==> Height(t) == 0
  {
    HeightPositive(t);
    if t.Branch? {
      HeightPositive(t.left);
      HeightPositive(t.right);
    }
  }

  lemma {:induction false} CoupleHeight<E, A>(t: Tree<E, A>)
    requires Balanced(t) && Several(t)
    ensures Couple(t) <==> Height(t) == 1 && MinShrinks(t)
  {
    HeightPositive(t.left);
    HeightPositive(t.right);
    AloneHeight(t.left);
  }

  lemma {:induction false} CoupleGoes<E, A>(t: Tree<E, A>, upd: Update<E, A>)
    requires DepthsExact(t) && Balanced(t) && Several(t)
    ensures DropMin(t, upd).Branch? && (DropMin(DropMin(t, upd), upd).Leaf? <==> Couple(t))
  {
    var u := DropMin(t, upd);
    MinsLostHeight(t, upd);
    DropMinHeight(t, upd);
    CoupleHeight(t);
    AloneHeight(u);
    DropMinLeaf(u, upd);
    HeightPositive(t);
    AloneHeight(t);
  }

  /** The node turns down when its second successor goes. */
  ghost predicate TurnsNext<E, A>(t: Tree<E, A>)
    requires t.Branch? && Several(t.right)
  {
    Lean(t) + MinsLost(t.right) > 1
  }

  /** After its successor, the node itself comes out of an AVL tree exactly when this holds of the tree
  before both removals. */
  ghost predicate RemovableAfter<E, A>(c: Ctx<E, A>, t: Tree<E, A>)
    requires t.Branch? && t.right.Branch?
  {
    if t.left.Leaf? then true
    else if Alone(t.right) then !c.Top? || Turns(t)
    else if Turns(t) then Stranded(t.left) || !Couple(t.right)
    else !Couple(t.right) && if TurnsNext(t) then !Stranded(t.left) else !c.InLeft?
  }

  /** The tree after the first removal: where the node is, and what is around it. */
  lemma {:induction false} AfterFirst<E, A>(c: Ctx<E, A>, t: Tree<E, A>, q: Tree<E, A>, upd: Update<E, A>)
    returns (d: Ctx<E, A>, s: Tree<E, A>)
    requires t.Branch? && t.right.Branch?
    requires DepthsExact(Plug(c, t)) && Balanced(Plug(c, t)) && Distinct(InOrder(Plug(c, t)))
    requires DepthsExact(t.right) && q == DropMin(t.right, upd)
    ensures Refocus(c, t, upd) == (d, s) && Plug(d, s) == WithoutVictim(c, t, upd) && Distinct(InOrder(Plug(d, s)))
    ensures s.Branch? && s.entry == t.entry && s.right == q && Balanced(s.left) && Near(Height(s.left), Height(q))
    ensures TurnsWith(t, q) <==> Turns(t)
    ensures !Turns(t) ==> s.left == t.left && (d.InLeft? <==> c.InLeft?) && (d.Top? <==> c.Top?)
    ensures Turns(t) ==> d.InRight? && t.left.Branch? && s.left == Kept(t.left, true, upd) && Lean(s) <= 0
    ensures Withstands(d, Height(s), 0) && (!Turns(t) || Lean(s) != 0 ==> Withstands(d, Height(s), 1))
  {
    SidesOfExact(c, t);
    CtxOfBalanced(c, t);
    BalancedWithstands(c, Height(t));
    DropMinHeight(t.right, upd);
    WithoutVictimIs(c, t, upd);
    d, s := FocusMoves(c, t, q, upd, 2);
    RefocusIs(c, t, upd, d, s);
    KeptBalanced(t.left, Turns(t), upd);
    StillDistinct(c, t, upd);
  }

  lemma {:induction false} KeptBalanced<E, A>(l: Tree<E, A>, turns: bool, upd: Update<E, A>)
    requires Balanced(l) && (turns ==> l.Branch?)
    ensures Balanced(Kept(l, turns, upd))
  {
    if turns && l.right.Branch? {
      assert Balanced(l.right);
      RefreshBalance(l.right.right, upd);
    }
  }

  /** The node has at most one child left. */
  lemma {:induction false} AfterSmall<E, A>(c: Ctx<E, A>, t: Tree<E, A>, q: Tree<E, A>, d: Ctx<E, A>, s: Tree<E, A>,
      upd: Update<E, A>)
    requires t.Branch? && t.right.Branch? && Balanced(t) && DepthsExact(t) && s.Branch? && DepthsExact(Plug(d, s))
    requires q.Leaf? <==> Alone(t.right)
    requires TurnsWith(t, q) <==> Turns(t)
    requires s.right == q && (s.left.Leaf? || q.Leaf?)
    requires !Turns(t) ==> s.left == t.left && (d.Top? <==> c.Top?)
    requires Turns(t) ==> d.InRight? && t.left.Branch? && s.left == Kept(t.left, true, upd)
    ensures Remove(d, s, upd).Removed? <==> RemovableAfter(c, t)
  {
    AloneHeight(t.right);
    HeightPositive(t.left);
    HeightPositive(t.right);
    if Turns(t) {
      TurnLeavesLeft(t, q);
    }
  }

  /** It has both. */
  lemma {:induction false} AfterLarge<E, A>(c: Ctx<E, A>, t: Tree<E, A>, q: Tree<E, A>, d: Ctx<E, A>, s: Tree<E, A>,
      upd: Update<E, A>)
    requires t.Branch? && t.right.Branch? && Balanced(t) && DepthsExact(t) && q == DropMin(t.right, upd)
    requires s.Branch? && DepthsExact(Plug(d, s)) && Distinct(InOrder(Plug(d, s))) && DepthsExact(q)
    requires s.right == q && Balanced(s.left) && s.left.Branch? && q.Branch? && Near(Height(s.left), Height(q))
    requires TurnsWith(t, q) <==> Turns(t)
    requires !Turns(t) ==> s.left == t.left && (d.InLeft? <==> c.InLeft?)
    requires Turns(t) ==> d.InRight? && t.left.Branch? && s.left == Kept(t.left, true, upd)
    requires Withstands(d, Height(s), 0) && (Lean(s) != 0 ==> Withstands(d, Height(s), 1))
    requires Turns(t) ==> Lean(s) <= 0
    ensures Remove(d, s, upd).Removed? <==> RemovableAfter(c, t)
  {
    DropMinLeaf(t.right, upd);
    MinsLostHeight(t.right, upd);
    DropMinHeight(t.right, upd);
    CoupleGoes(t.right, upd);
    var q2 := DropMin(q, upd);
    OutcomeWith(d, s, q2, upd, if Lean(s) == 0 then 0 else 1);
  }

  lemma {:induction false} RemovedAfter<E, A>(c: Ctx<E, A>, t: Tree<E, A>, upd: Update<E, A>)
    requires t.Branch? && t.right.Branch?
    requires DepthsExact(Plug(c, t)) && Balanced(Plug(c, t)) && Distinct(InOrder(Plug(c, t)))
    ensures var (d, s) := Refocus(c, t, upd); Remove(d, s, upd).Removed? <==> RemovableAfter(c, t)
  {
    SidesOfExact(c, t);
    CtxOfBalanced(c, t);
    var q := DropMin(t.right, upd);
    var d, s := AfterFirst(c, t, q, upd);
    DropMinLeaf(t.right, upd);
    if s.left.Branch? && q.Branch? {
      AfterLarge(c, t, q, d, s, upd);
    } else {
      AfterSmall(c, t, q, d, s, upd);
    }
  }

  // ----- a node, then its predecessor from the left subtree -----

  ghost predicate TurnsIfTwo<E, A>(t: Tree<E, A>)
    requires t.Branch?
  {
    t.right.Branch? && Turns(t)
  }

  /** It hangs together somewhere below the root. */
  lemma {:induction false} LeftStays<E, A>(c: Ctx<E, A>, t: Tree<E, A>, upd: Update<E, A>) returns (d: Ctx<E, A>)
    requires t.Branch? && t.left.Branch?
    requires DepthsExact(Plug(c, t)) && Balanced(Plug(c, t)) && Distinct(InOrder(Plug(c, t)))
    requires Remove(c, t, upd).Removed?
    ensures !d.Top? && Kept(t.left, TurnsIfTwo(t), upd).Branch?
    ensures Plug(d, Kept(t.left, TurnsIfTwo(t), upd)) == Remove(c, t, upd).tree
  {
    SidesOfExact(c, t);
    CtxOfBalanced(c, t);
    BalancedWithstands(c, Height(t));
    if t.right.Branch? {
      DropMinHeight(t.right, upd);
      var l;
      d, l := LeftSurvives(c, t, DropMin(t.right, upd), upd, 2);
    } else {
      HeightPositive(t.left);
      d := Climb(c, t.left, upd, Height(t), Height(t.left), 2);
    }
  }

  /** So the last entry of the left subtree, which has no right child, comes out next. */
  lemma {:induction false} PreviousNext<E, A>(c: Ctx<E, A>, t: Tree<E, A>, upd: Update<E, A>)
      returns (d: Ctx<E, A>, s: Tree<E, A>)
    requires t.Branch? && t.left.Branch?
    requires DepthsExact(Plug(c, t)) && Balanced(Plug(c, t)) && Distinct(InOrder(Plug(c, t)))
    requires Remove(c, t, upd).Removed?
    ensures s.Branch? && Plug(d, s) == Remove(c, t, upd).tree && Remove(d, s, upd).Removed?
    ensures s.entry == LastOf(t.left).entry
  {
    d := LeftStays(c, t, upd);
    var w := Kept(t.left, TurnsIfTwo(t), upd);
    KeptLast(t.left, TurnsIfTwo(t), upd);
    RightmostIs(d, w);
    var (e, u) := Rightmost(d, w);
    d, s := e, u;
  }

  lemma {:induction false} KeptLast<E, A>(l: Tree<E, A>, turns: bool, upd: Update<E, A>)
    requires l.Branch? && Kept(l, turns, upd).Branch?
    ensures LastOf(Kept(l, turns, upd)).entry == LastOf(l).entry && LastOf(Kept(l, turns, upd)).left == LastOf(l).left
  {
    if turns && l.right.Branch? {
      assert LastOf(l) == LastOf(l.right);
      if Lean(l) <= 0 {
        var w := l.right.right;
        assert LastOf(l.right) == LastOf(w);
        if w.right.Branch? { assert LastOf(w) == LastOf(w.right); }
      }
    }
  }
}
