/** The stale cache of a node through two removals, of the second and then of the first node after it: what
freeing a region between two free ones does to the cached maximum (vma.c:237-242). */
module AvlStalePair {
  import opened Seqs
  import opened AvlTree
  import opened AvlPath
  import opened AvlInsert
  import opened AvlRemove
  import opened AvlBalance
  import opened AvlTwoChild
  import opened AvlPair
  import opened AvlStale

  // ----- one more loss of a level, where the surroundings need not be balanced -----

  ghost predicate Lifts<E, A>(c: Ctx<E, A>, h: int) {
    c.Top? ||
    (&& Near(h, Sibling(c))
     && if Sibling(c) == h then Withstands(c.up, h + 1, 0) else Lifts(c.up, 1 + Max(h, Sibling(c))))
  }

  lemma {:induction false} WithstandsLifts<E, A>(c: Ctx<E, A>, h: int)
    requires Withstands(c, h, 1)
    ensures Lifts(c, h)
  {
    if !c.Top? && Sibling(c) != h { WithstandsLifts(c.up, 1 + Max(h, Sibling(c))); }
  }

  lemma {:induction false} LiftsQuiet<E, A>(c: Ctx<E, A>, h: int)
    requires Lifts(c, h)
    ensures Withstands(c, h, 0)
  {
    if !c.Top? && Sibling(c) != h { LiftsQuiet(c.up, 1 + Max(h, Sibling(c))); }
  }

  lemma {:induction false} TurnLeftLevels<E, A>(t: Tree<E, A>, upd: Update<E, A>)
    requires t.Branch? && DepthsExact(t.left) && DepthsExact(t.right) && Height(t.right) == Height(t.left) + 2
    ensures var r := Settle(t, upd);
      r.left.Branch? && r.left.left == t.left && Height(t.right) <= Height(r) <= Height(t.right) + 1
  {
    SettleLeft(t, upd);
    TurnedLeftHeight(t, upd, Lean(t.right) >= 0);
  }

  lemma {:induction false} TurnRightLevels<E, A>(t: Tree<E, A>, upd: Update<E, A>)
    requires t.Branch? && DepthsExact(t.left) && DepthsExact(t.right) && Height(t.left) == Height(t.right) + 2
    ensures var r := Settle(t, upd);
      r.right.Branch? && r.right.right == t.right && Height(t.left) <= Height(r) <= Height(t.left) + 1
  {
    SettleRight(t, upd);
    TurnedRightHeight(t, upd, Lean(t.left) <= 0);
  }

  /** One step of the climb: the lighter side moves as a whole. */
  lemma {:induction false} LiftStep<E, A>(c: Ctx<E, A>, s: Tree<E, A>, upd: Update<E, A>, h: int, sib: int)
    returns (r: Tree<E, A>, turned: bool, g: int)
    requires !c.Top? && DepthsExact(s) && SidesExact(c) && Height(s) == h - 1 && sib == Sibling(c) && Near(h, sib)
    ensures r.Branch? && DepthsExact(r) && g == Height(r)
    ensures Bubble(c.up, Above(c, s), upd) == if c.up.Top? then r else Bubble(c.up.up, Above(c.up, r), upd)
    ensures if turned then Side(r, c.InLeft?).Branch? && Side(Side(r, c.InLeft?), c.InLeft?) == s
      else Side(r, c.InLeft?) == s
    ensures Max(h, sib) <= g <= 1 + Max(h, sib) && (sib == h ==> g == 1 + h)
  {
    var t := Above(c, s);
    r, turned := Settle(t, upd), sib > h;
    g := Height(r);
    if !turned {
      RefreshOnly(t, upd);
    } else if c.InLeft? {
      TurnLeftLevels(t, upd);
    } else {
      TurnRightLevels(t, upd);
    }
  }

  lemma {:induction false} ClimbLifts<E, A>(c: Ctx<E, A>, s: Tree<E, A>, upd: Update<E, A>, h: int)
      returns (d: Ctx<E, A>)
    requires !c.Top? && DepthsExact(s) && SidesExact(c) && Lifts(c, h) && Height(s) == h - 1
    ensures Plug(d, s) == Bubble(c.up, Above(c, s), upd)
    decreases c, 0
  {
    var sib := Sibling(c);
    var r, turned, m := LiftStep(c, s, upd, h, sib);
    if m == 1 + Max(h, sib) && sib != h { LiftsQuiet(c.up, m); }
    var up := LiftAbove(c.up, r, upd, 1 + Max(h, sib), m);
    d := HangPiece(r, s, c.InLeft?, turned, up);
  }

  lemma {:induction false} LiftAbove<E, A>(c: Ctx<E, A>, r: Tree<E, A>, upd: Update<E, A>, g: int, m: int)
      returns (up: Ctx<E, A>)
    requires r.Branch? && DepthsExact(r) && SidesExact(c) && m == Height(r)
    requires (m == g && Withstands(c, g, 0)) || (m == g - 1 && Lifts(c, g))
    ensures Plug(up, r) == if c.Top? then r else Bubble(c.up, Above(c, r), upd)
    decreases c, 1
  {
    up := Top;
    if !c.Top? {
      if m == g { up := Climb(c, r, upd, g, g, 0); } else { up := ClimbLifts(c, r, upd, g); }
    }
  }

  lemma {:induction false} HangPiece<E, A>(r: Tree<E, A>, s: Tree<E, A>, left: bool, turned: bool, up: Ctx<E, A>)
      returns (d: Ctx<E, A>)
    requires r.Branch? && if turned then Side(r, left).Branch? && Side(Side(r, left), left) == s else Side(r, left) == s
    ensures Plug(d, s) == Plug(up, r)
  {
    d := Under(r, left, up);
    if turned { d := Under(Side(r, left), left, d); }
  }

  lemma {:induction false} RightmostLifts<E, A>(c: Ctx<E, A>, t: Tree<E, A>)
    requires t.Branch? && Balanced(t) && Lifts(c, Height(t))
    ensures var (d, s) := Rightmost(c, t); Lifts(d, Height(s))
    decreases t
  {
    if t.right.Branch? {
      LiftsQuiet(c, Height(t));
      RightmostLifts(InRight(c, t.left, t.entry, t.depth, t.aug), t.right);
    }
  }

  // ----- the stale node has a right child: the next node -----

  lemma {:induction false} FocusSave<E, A>(c: Ctx<E, A>, t: Tree<E, A>, k: int, x: Option<E>, upd: Update<E, A>)
    requires 0 <= k < |InOrder(t)| && SidesSave(c, x, upd) && ExactSave(t, x, upd)
    ensures var (d, s) := FocusAt(c, t, k); SidesSave(d, x, upd) && ExactSave(s, x, upd)
    decreases t
  {
    var n := |InOrder(t.left)|;
    if k < n {
      FocusSave(InLeft(c, t.entry, t.depth, t.aug, t.right), t.left, k, x, upd);
    } else if k > n {
      FocusSave(InRight(c, t.left, t.entry, t.depth, t.aug), t.right, k - n - 1, x, upd);
    }
  }

  /** Both nodes are below it: the first climb already passes it. */
  lemma {:induction false} FirstPasses<E, A>(c: Ctx<E, A>, s: Tree<E, A>, f: Ctx<E, A>, m: Tree<E, A>,
      upd: Update<E, A>)
    requires s.Branch? && |InOrder(s.right)| > 1 && DepthsExact(Plug(c, s)) && Distinct(InOrder(Plug(c, s)))
    requires ExactSave(Plug(c, s), Some(s.entry), upd)
    requires (f, m) == FocusAt(InRight(c, s.left, s.entry, s.depth, s.aug), s.right, 1)
    requires m.Branch? && Plug(f, m) == Plug(c, s) && Remove(f, m, upd).Removed?
    ensures AugExact(Remove(f, m, upd).tree, upd)
  {
    StaleAt(c, s, upd);
    SaveNone(s.left, upd);
    SaveNone(s.right, upd);
    FocusSave(InRight(c, s.left, s.entry, s.depth, s.aug), s.right, 1, None, upd);
    RemoveSave(f, m, None, upd);
    SaveNone(Remove(f, m, upd).tree, upd);
  }

  /** The parent of the last node, on the right spine. */
  function BeforeLast<E, A>(t: Tree<E, A>): E
    requires t.Branch? && t.right.Branch?
  {
    if t.right.right.Leaf? then t.entry else BeforeLast(t.right)
  }

  lemma {:induction false} RightmostParent<E, A>(c: Ctx<E, A>, t: Tree<E, A>)
    requires t.Branch? && t.right.Branch?
    ensures var d := Rightmost(c, t).0; d.InRight? && d.entry == BeforeLast(t)
    decreases t
  {
    if t.right.right.Branch? {
      RightmostParent(InRight(c, t.left, t.entry, t.depth, t.aug), t.right);
    } else {
      assert Rightmost(InRight(c, t.left, t.entry, t.depth, t.aug), t.right).0.InRight?;
    }
  }

  /** What is kept of a left subtree keeps its last two nodes, or the turn computes the earlier one anew. */
  lemma {:induction false} KeptParent<E, A>(l: Tree<E, A>, turns: bool, upd: Update<E, A>)
    requires l.Branch? && l.right.Branch? && Kept(l, turns, upd).Branch?
    ensures var w := Kept(l, turns, upd);
      if w.right.Branch? then BeforeLast(w) == BeforeLast(l) else turns && Recomputed(l, BeforeLast(l))
  {
    if turns && Lean(l) <= 0 {
      var w := l.right.right;
      assert BeforeLast(l) == BeforeLast(l.right);
      if w.right.Branch? { assert BeforeLast(l.right) == BeforeLast(w); }
    }
  }

  /** The parent of the node removed is the stale one: the climb passes it. */
  lemma {:induction false} ParentPassed<E, A>(d: Ctx<E, A>, u: Tree<E, A>, upd: Update<E, A>)
    requires d.InRight? && u.Branch? && u.left.Leaf? && u.right.Leaf?
    requires DepthsExact(Plug(d, u)) && Distinct(InOrder(Plug(d, u))) && ExactSave(Plug(d, u), Some(d.entry), upd)
    requires Remove(d, u, upd).Removed?
    ensures AugExact(Remove(d, u, upd).tree, upd)
  {
    var v := Above(d, u);
    StaleAt(d.up, v, upd);
    SaveNone(v.left, upd);
    RemoveSave(d, u, None, upd);
    SaveNone(Remove(d, u, upd).tree, upd);
  }

  /** The stale node's right child is the node after it and nothing else; the one after that is above. */
  lemma {:induction false} SecondPasses<E, A>(e: Ctx<E, A>, n: Tree<E, A>, f: Ctx<E, A>, m: Tree<E, A>,
      upd: Update<E, A>)
    requires e.InRight? && Alone(n) && m.Branch? && m.left.Branch? && Plug(e, n) == Plug(f, m)
    requires (e, n) == Rightmost(InLeft(f, m.entry, m.depth, m.aug, m.right), m.left)
    requires DepthsExact(Plug(f, m)) && Balanced(Plug(f, m)) && Distinct(InOrder(Plug(f, m)))
    requires ExactSave(Plug(f, m), Some(e.entry), upd) && Remove(f, m, upd).Removed?
    requires DepthsExact(Remove(f, m, upd).tree) && Distinct(InOrder(Remove(f, m, upd).tree))
    ensures n.entry in InOrder(Remove(f, m, upd).tree)
    ensures var t1 := Remove(f, m, upd).tree;
      var (d, u) := Locate(Top, t1, n.entry);
      Remove(d, u, upd).Removed? && AugExact(Remove(d, u, upd).tree, upd)
  {
    var l, x := m.left, e.entry;
    SidesOfExact(f, m);
    assert l.right.Branch?;
    RightmostIs(InLeft(f, m.entry, m.depth, m.aug, m.right), l);
    RightmostParent(InLeft(f, m.entry, m.depth, m.aug, m.right), l);
    var d0 := LeftStays(f, m, upd);
    var w := Kept(l, TurnsIfTwo(m), upd);
    KeptParent(l, TurnsIfTwo(m), upd);
    KeptLast(l, TurnsIfTwo(m), upd);
    RightmostIs(d0, w);
    var (d, u) := Rightmost(d0, w);
    LocateIs(d, u);
    SidesOfSave(f, m, Some(x), upd);
    RemoveSave(f, m, Some(x), upd);
    if w.right.Branch? {
      RightmostParent(d0, w);
      ParentPassed(d, u, upd);
    } else {
      SecondRenewed(f, m, x, upd);
      ExactStays(d, u, upd);
    }
  }

  lemma {:induction false} SecondRenewed<E, A>(f: Ctx<E, A>, m: Tree<E, A>, x: E, upd: Update<E, A>)
    requires m.Branch? && m.left.Branch? && TurnsIfTwo(m) && Recomputed(m.left, x) && x in InOrder(m.left)
    requires DepthsExact(Plug(f, m)) && Balanced(Plug(f, m)) && Distinct(InOrder(Plug(f, m)))
    requires ExactSave(Plug(f, m), Some(x), upd) && Remove(f, m, upd).Removed?
    ensures AugExact(Remove(f, m, upd).tree, upd)
  {
    SidesOfExact(f, m);
    CtxOfBalanced(f, m);
    DropMinHeight(m.right, upd);
    TurnRenews(f, m, x, upd);
    ReplaceSave(f, m, None, upd);
    SaveNone(Remove(f, m, upd).tree, upd);
  }

  // ----- it has none: the next node is above it -----

  /** The node's turn, at its successor's removal or at its own, computes the last node of its left subtree
  anew. */
  ghost predicate TurnsAtAll<E, A>(n: Tree<E, A>)
    requires n.Branch? && n.right.Branch?
  {
    Turns(n) || (Several(n.right) && TurnsNext(n))
  }

  /** The node after the next hangs below the next. `d` and `u` are the next node once that one is gone. */
  lemma {:induction false} NodeBetween<E, A>(e: Ctx<E, A>, n: Tree<E, A>, upd: Update<E, A>)
    requires n.Branch? && n.left.Branch? && n.right.Branch?
    requires DepthsExact(Plug(e, n)) && Balanced(Plug(e, n)) && Distinct(InOrder(Plug(e, n)))
    requires ExactSave(Plug(e, n), Some(LastOf(n.left).entry), upd) && !AugExact(LastOf(n.left), upd)
    ensures var (d, u) := Refocus(e, n, upd);
      Remove(d, u, upd).Removed? ==> (AugExact(Remove(d, u, upd).tree, upd) <==> Renews(n.left) && TurnsAtAll(n))
  {
    SidesOfExact(e, n);
    CtxOfBalanced(e, n);
    var q, x := DropMin(n.right, upd), LastOf(n.left).entry;
    var d, u := AfterFirst(e, n, q, upd);
    RightmostIs(Top, n.left);
    DropMinLeaf(n.right, upd);
    if Remove(d, u, upd).Removed? {
      if Turns(n) && Renews(n.left) {
        RenewsLast(n.left);
        TurnRenews(e, n, x, upd);
        SaveNone(WithoutVictim(e, n, upd), upd);
        ExactStays(d, u, upd);
      } else {
        KeptKeepsLast(n.left, Turns(n), upd);
        SidesOfSave(e, n, Some(x), upd);
        WithoutVictimSave(e, n, Some(x), upd);
        if q.Leaf? { SmallStays(n, q, d, u, upd); } else { LargeStays(n, q, d, u, upd); }
      }
    }
  }

  /** The next node is left with its left subtree only, which moves up as it is. */
  lemma {:induction false} SmallStays<E, A>(n: Tree<E, A>, q: Tree<E, A>, d: Ctx<E, A>, u: Tree<E, A>,
      upd: Update<E, A>)
    requires n.Branch? && n.left.Branch? && Alone(n.right) && q.Leaf? && Balanced(n)
    requires u.Branch? && u.right == q && u.left.Branch? && LastOf(u.left) == LastOf(n.left) &&
      !AugExact(LastOf(n.left), upd)
    requires DepthsExact(Plug(d, u)) && Remove(d, u, upd).Removed?
    requires TurnsWith(n, q) <==> Turns(n)
    requires Turns(n) ==> !Renews(n.left)
    requires !Turns(n) ==> Withstands(d, Height(u), 1)
    ensures !AugExact(Remove(d, u, upd).tree, upd)
    ensures !TurnsAtAll(n)
  {
    SidesOfExact(d, u);
    HeightPositive(n.left);
    HeightPositive(n.left.right);
    HeightPositive(u.left);
    if n.left.right.Branch? { HeightPositive(n.left.right.right); }
    var e := Climb(d, u.left, upd, Height(u), Height(u.left), 1);
    if AugExact(Remove(d, u, upd).tree, upd) { StillStale(e, u.left, upd); }
  }

  /** It still has both subtrees. */
  lemma {:induction false} LargeStays<E, A>(n: Tree<E, A>, q: Tree<E, A>, d: Ctx<E, A>, u: Tree<E, A>,
      upd: Update<E, A>)
    requires n.Branch? && n.left.Branch? && n.right.Branch? && Balanced(n) && DepthsExact(n) &&
      q == DropMin(n.right, upd)
    requires u.Branch? && DepthsExact(Plug(d, u)) && Distinct(InOrder(Plug(d, u))) && DepthsExact(q) && q.Branch?
    requires u.right == q && Balanced(u.left) && u.left.Branch? && Near(Height(u.left), Height(q))
    requires LastOf(u.left) == LastOf(n.left) && !AugExact(LastOf(n.left), upd)
    requires ExactSave(Plug(d, u), Some(LastOf(n.left).entry), upd)
    requires TurnsWith(n, q) <==> Turns(n)
    requires !Turns(n) ==> u.left == n.left
    requires Turns(n) ==> Lean(u) <= 0 && !Renews(n.left)
    requires Withstands(d, Height(u), 0) && (Lean(u) != 0 ==> Withstands(d, Height(u), 1))
    requires Remove(d, u, upd).Removed?
    ensures AugExact(Remove(d, u, upd).tree, upd) <==> Renews(n.left) && TurnsAtAll(n)
  {
    DropMinLeaf(n.right, upd);
    MinsLostHeight(n.right, upd);
    DropMinHeight(n.right, upd);
    SidesOfExact(d, u);
    var q2, x := DropMin(q, upd), LastOf(n.left).entry;
    RightmostIs(Top, u.left);
    if TurnsWith(u, q2) && Renews(u.left) {
      RenewsLast(u.left);
      TurnRenews(d, u, x, upd);
      ReplaceSave(d, u, None, upd);
      SaveNone(Remove(d, u, upd).tree, upd);
    } else {
      KeptKeepsLast(u.left, TurnsWith(u, q2), upd);
      var e, l := LeftSurvives(d, u, q2, upd, if Lean(u) == 0 then 0 else 1);
      if AugExact(Remove(d, u, upd).tree, upd) { StillStale(e, l, upd); }
    }
  }

  /** Where the kept left part hangs, one more level can be lost. */
  lemma {:induction false} KeptLifts<E, A>(f: Ctx<E, A>, m: Tree<E, A>, upd: Update<E, A>) returns (d: Ctx<E, A>)
    requires m.Branch? && m.left.Branch? && m.right.Branch?
    requires DepthsExact(Plug(f, m)) && Balanced(Plug(f, m)) && Distinct(InOrder(Plug(f, m)))
    requires Remove(f, m, upd).Removed?
    ensures var w := Kept(m.left, Turns(m), upd);
      !d.Top? && w.Branch? && Balanced(w) && Plug(d, w) == Remove(f, m, upd).tree && Lifts(d, Height(w))
  {
    SidesOfExact(f, m);
    CtxOfBalanced(f, m);
    BalancedWithstands(f, Height(m));
    DropMinHeight(m.right, upd);
    KeptBalanced(m.left, Turns(m), upd);
    var w;
    d, w := LeftSurvives(f, m, DropMin(m.right, upd), upd, 2);
    HungLifts(d, w, DropMin(m.right, upd));
  }

  lemma {:induction false} HungLifts<E, A>(d: Ctx<E, A>, l: Tree<E, A>, q: Tree<E, A>)
    requires HungLeft(d, l, q, 2)
    ensures Lifts(d, Height(l))
  {
    if Height(l) != Height(q) { WithstandsLifts(d.up, 1 + Max(Height(l), Height(q))); }
  }

  /** Both nodes are above it: the next has it for an only child, which moves up as it is. */
  lemma {:induction false} BothAbove<E, A>(e: Ctx<E, A>, n: Tree<E, A>, f: Ctx<E, A>, m: Tree<E, A>, upd: Update<E, A>)
    requires n.Branch? && n.left.Branch? && n.right.Leaf? && !AugExact(n.left, upd)
    requires m.Branch? && m.left.Branch? && Plug(e, n) == Plug(f, m)
    requires (e, n) == Rightmost(InLeft(f, m.entry, m.depth, m.aug, m.right), m.left)
    requires DepthsExact(Plug(f, m)) && Balanced(Plug(f, m)) && Distinct(InOrder(Plug(f, m))) &&
      Remove(f, m, upd).Removed?
    requires DepthsExact(Remove(f, m, upd).tree) && Distinct(InOrder(Remove(f, m, upd).tree))
    ensures n.entry in InOrder(Remove(f, m, upd).tree)
    ensures var (d, u) := Locate(Top, Remove(f, m, upd).tree, n.entry);
      Remove(d, u, upd).Removed? && !AugExact(Remove(d, u, upd).tree, upd)
  {
    SidesOfExact(f, m);
    CtxOfBalanced(f, m);
    RightmostIs(InLeft(f, m.entry, m.depth, m.aug, m.right), m.left);
    TwoBelow(m);
    var d0 := KeptLifts(f, m, upd);
    var w := Kept(m.left, Turns(m), upd);
    KeptLast(m.left, Turns(m), upd);
    LastMovesUp(d0, w, upd);
  }

  lemma {:induction false} LastMovesUp<E, A>(c: Ctx<E, A>, w: Tree<E, A>, upd: Update<E, A>)
    requires !c.Top? && w.Branch? && Balanced(w) && Lifts(c, Height(w)) && LastOf(w).left.Branch? &&
      !AugExact(LastOf(w).left, upd)
    requires DepthsExact(Plug(c, w)) && Distinct(InOrder(Plug(c, w)))
    ensures LastOf(w).entry in InOrder(Plug(c, w))
    ensures var (d, u) := Locate(Top, Plug(c, w), LastOf(w).entry);
      Remove(d, u, upd).Removed? && !AugExact(Remove(d, u, upd).tree, upd)
  {
    RightmostLifts(c, w);
    RightmostIs(c, w);
    var (d, u) := Rightmost(c, w);
    LocateIs(d, u);
    SidesOfExact(d, u);
    HeightPositive(u.left);
    assert Height(u) == 1 + Height(u.left) && DepthsExact(u.left);
    var g := ClimbLifts(d, u.left, upd, Height(u));
    if AugExact(Remove(d, u, upd).tree, upd) {
      SaveNone(Remove(d, u, upd).tree, upd);
      SidesOfSave(g, u.left, None, upd);
      SaveNone(u.left, upd);
    }
  }

  lemma {:induction false} TwoBelow<E, A>(m: Tree<E, A>)
    requires m.Branch? && m.left.Branch? && Balanced(m) && LastOf(m.left).left.Branch?
    ensures m.right.Branch?
  {
    LastHeight(m.left);
    HeightPositive(LastOf(m.left).left);
    HeightPositive(m.right);
  }

  lemma {:induction false} LastHeight<E, A>(t: Tree<E, A>)
    requires t.Branch?
    ensures Height(LastOf(t)) <= Height(t)
  {
    if t.right.Branch? { LastHeight(t.right); }
  }

  // ----- the two removals together -----

  /** What the two removals find around the stale node: it has a right child, or the next node turns and
  computes it anew. */
  ghost predicate PairRenewing<E, A>(s: Tree<E, A>, n: Tree<E, A>)
    requires s.Branch? && n.Branch?
  {
    s.right.Branch? || (n.left.Branch? && n.right.Branch? && Renews(n.left) && TurnsAtAll(n))
  }

  /** The tree after the removal of entry `i + 2` and then of entry `i + 1`, where both go through. */
  ghost predicate Both<E, A>(t: Tree<E, A>, i: int, upd: Update<E, A>, t1: Tree<E, A>, t2: Tree<E, A>)
    requires DepthsExact(t) && 0 <= i < |InOrder(t)| - 2
  {
    var (f, m) := FocusAt(Top, t, i + 2);
    && m.Branch? && Plug(f, m) == t && Remove(f, m, upd) == Removed(t1)
    && DepthsExact(t1) && Distinct(InOrder(t1)) && InOrder(t)[i + 1] in InOrder(t1)
    && var (d, u) := Locate(Top, t1, InOrder(t)[i + 1]);
       Remove(d, u, upd) == Removed(t2)
  }

  /** A node and the next one in order, with their places. */
  ghost predicate Neighbours<E, A>(t: Tree<E, A>, c: Ctx<E, A>, s: Tree<E, A>, e: Ctx<E, A>, n: Tree<E, A>) {
    && s.Branch? && n.Branch? && Plug(c, s) == t && Plug(e, n) == t
    && (s.right.Branch? ==> (e, n) == Leftmost(InRight(c, s.left, s.entry, s.depth, s.aug), s.right))
    && (s.right.Leaf? ==> n.left.Branch? && (c, s) == Rightmost(InLeft(e, n.entry, n.depth, n.aug, n.right), n.left))
  }

  lemma {:induction false} NeighboursAt<E, A>(t: Tree<E, A>, i: int)
    requires 0 <= i < |InOrder(t)| - 1
    ensures var ((c, s), (e, n)) := (FocusAt(Top, t, i), FocusAt(Top, t, i + 1));
      Neighbours(t, c, s, e, n) && s.entry == InOrder(t)[i] && n.entry == InOrder(t)[i + 1] &&
        |Before(c)| + |InOrder(s.left)| == i
  {
    FocusShape(Top, t, i);
    FocusShape(Top, t, i + 1);
    Adjacent(Top, t, i);
  }

  /** Removing the two nodes after the stale one leaves every cache exact exactly when the stale cache
  happened to be right, or is computed anew. */
  lemma {:induction false} PairCache<E, A>(t: Tree<E, A>, i: int, upd: Update<E, A>, t1: Tree<E, A>, t2: Tree<E, A>)
    requires DepthsExact(t) && Balanced(t) && Distinct(InOrder(t)) && 0 <= i < |InOrder(t)| - 2
    requires ExactSave(t, Some(InOrder(t)[i]), upd) && Both(t, i, upd, t1, t2)
    ensures var (s, n) := (FocusAt(Top, t, i).1, FocusAt(Top, t, i + 1).1);
      s.Branch? && n.Branch? && (AugExact(t2, upd) <==> AugExact(t, upd) || PairRenewing(s, n))
  {
    NeighboursAt(t, i);
    NeighboursAt(t, i + 1);
    var (c, s) := FocusAt(Top, t, i);
    var (e, n) := FocusAt(Top, t, i + 1);
    var (f, m) := FocusAt(Top, t, i + 2);
    PairCacheAt(t, i, c, s, e, n, f, m, upd);
  }

  lemma {:induction false} PairCacheAt<E, A>(t: Tree<E, A>, i: int, c: Ctx<E, A>, s: Tree<E, A>, e: Ctx<E, A>,
      n: Tree<E, A>, f: Ctx<E, A>, m: Tree<E, A>, upd: Update<E, A>)
    requires Neighbours(t, c, s, e, n) && Neighbours(t, e, n, f, m)
    requires DepthsExact(t) && Balanced(t) && Distinct(InOrder(t)) && ExactSave(t, Some(s.entry), upd)
    requires i == |Before(c)| + |InOrder(s.left)| && 0 <= i + 2 < |InOrder(t)| && (f, m) == FocusAt(Top, t, i + 2)
    requires Remove(f, m, upd).Removed? && DepthsExact(Remove(f, m, upd).tree) &&
      Distinct(InOrder(Remove(f, m, upd).tree))
    requires n.entry in InOrder(Remove(f, m, upd).tree)
    ensures var (d, u) := Locate(Top, Remove(f, m, upd).tree, n.entry);
      Remove(d, u, upd).Removed? ==>
        (AugExact(Remove(d, u, upd).tree, upd) <==> AugExact(t, upd) || PairRenewing(s, n))
  {
    var (d, u) := Locate(Top, Remove(f, m, upd).tree, n.entry);
    StaleAt(c, s, upd);
    if Remove(d, u, upd).Removed? {
      if AugExact(t, upd) {
        ExactStays(f, m, upd);
        ExactStays(d, u, upd);
      } else if s.right.Branch? {
        PairBelow(c, s, e, n, f, m, d, u, i, upd);
      } else {
        PairAbove(s, e, n, f, m, upd);
      }
    }
  }

  lemma {:induction false} PairAbove<E, A>(s: Tree<E, A>, e: Ctx<E, A>, n: Tree<E, A>, f: Ctx<E, A>, m: Tree<E, A>,
      upd: Update<E, A>)
    requires n.Branch? && n.left.Branch? && s == Rightmost(InLeft(e, n.entry, n.depth, n.aug, n.right), n.left).1
    requires ExactSave(Plug(e, n), Some(s.entry), upd) && !AugExact(s, upd)
    requires DepthsExact(Plug(e, n)) && Balanced(Plug(e, n)) && Distinct(InOrder(Plug(e, n))) && m.Branch? &&
      Plug(e, n) == Plug(f, m)
    requires n.right.Branch? ==> (f, m) == Leftmost(InRight(e, n.left, n.entry, n.depth, n.aug), n.right)
    requires n.right.Leaf? ==>
      m.left.Branch? && (e, n) == Rightmost(InLeft(f, m.entry, m.depth, m.aug, m.right), m.left)
    requires Remove(f, m, upd).Removed? && DepthsExact(Remove(f, m, upd).tree) &&
      Distinct(InOrder(Remove(f, m, upd).tree))
    requires n.entry in InOrder(Remove(f, m, upd).tree)
    ensures var (d, u) := Locate(Top, Remove(f, m, upd).tree, n.entry);
      Remove(d, u, upd).Removed? ==>
        (AugExact(Remove(d, u, upd).tree, upd) <==> n.right.Branch? && Renews(n.left) && TurnsAtAll(n))
  {
    RightmostIs(InLeft(e, n.entry, n.depth, n.aug, n.right), n.left);
    if n.right.Branch? {
      assert (f, m) == Victim(e, n);
      NodeBetween(e, n, upd);
    } else {
      OnlyChild(e, n);
      BothAbove(e, n, f, m, upd);
    }
  }

  lemma {:induction false} OnlyChild<E, A>(e: Ctx<E, A>, n: Tree<E, A>)
    requires n.Branch? && n.left.Branch? && n.right.Leaf? && Balanced(Plug(e, n))
    ensures LastOf(n.left) == n.left
  {
    CtxOfBalanced(e, n);
    HeightPositive(n.left.left);
    HeightPositive(n.left.right);
  }

  lemma {:induction false} OneIsAlone<E, A>(t: Tree<E, A>)
    requires t.Branch? && |InOrder(t)| == 1
    ensures Alone(t)
  {
  }

  lemma {:induction false} PairBelow<E, A>(c: Ctx<E, A>, s: Tree<E, A>, e: Ctx<E, A>, n: Tree<E, A>, f: Ctx<E, A>,
      m: Tree<E, A>, d: Ctx<E, A>, u: Tree<E, A>, i: int, upd: Update<E, A>)
    requires s.Branch? && s.right.Branch? && DepthsExact(Plug(c, s)) && Balanced(Plug(c, s)) &&
      Distinct(InOrder(Plug(c, s)))
    requires ExactSave(Plug(c, s), Some(s.entry), upd) && i == |Before(c)| + |InOrder(s.left)|
    requires (e, n) == Leftmost(InRight(c, s.left, s.entry, s.depth, s.aug), s.right) && n.Branch? &&
      Plug(e, n) == Plug(c, s)
    requires i + 2 < |InOrder(Plug(c, s))| && (f, m) == FocusAt(Top, Plug(c, s), i + 2) && m.Branch? &&
      Plug(f, m) == Plug(c, s)
    requires n.right.Leaf? ==>
      m.left.Branch? && (e, n) == Rightmost(InLeft(f, m.entry, m.depth, m.aug, m.right), m.left)
    requires Remove(f, m, upd).Removed? && DepthsExact(Remove(f, m, upd).tree) &&
      Distinct(InOrder(Remove(f, m, upd).tree))
    requires n.entry in InOrder(Remove(f, m, upd).tree) && (d, u) == Locate(Top, Remove(f, m, upd).tree, n.entry)
    requires Remove(d, u, upd).Removed?
    ensures AugExact(Remove(d, u, upd).tree, upd)
  {
    var r := InRight(c, s.left, s.entry, s.depth, s.aug);
    if |InOrder(s.right)| > 1 {
      FocusFromTop(r, s.right, 1);
      FirstPasses(c, s, f, m, upd);
      ExactStays(d, u, upd);
    } else {
      OneIsAlone(s.right);
      SecondPasses(e, n, f, m, upd);
    }
  }
}
