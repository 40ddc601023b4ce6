/** `avl_remove` of a node with two children (avl.c:72-91), on AVL trees: what becomes of it, told from the
tree before the call. */
module AvlTwoChild {
  import opened Seqs
  import opened AvlTree
  import opened AvlPath
  import opened AvlInsert
  import opened AvlRemove
  import opened AvlBalance

  /** A subtree once its first entry has been taken out and the path to it settled. */
  function DropMin<E, A>(t: Tree<E, A>, upd: Update<E, A>): (r: Tree<E, A>)
    requires t.Branch? && DepthsExact(t)
    ensures DepthsExact(r)
  {
    if t.left.Leaf? then t.right
    else Settle(t.(left := DropMin(t.left, upd)), upd)
  }

  /** The recursive removal of the successor, seen from the node whose right subtree it is in. */
  lemma {:induction false} VictimClimb<E, A>(c: Ctx<E, A>, t: Tree<E, A>, upd: Update<E, A>)
    requires t.Branch? && DepthsExact(t) && SidesExact(c) && !c.Top?
    ensures var (vc, v) := Leftmost(c, t);
      && !vc.Top? && SidesExact(vc) && DepthsExact(v)
      && Bubble(vc.up, Above(vc, v.right), upd) == Bubble(c.up, Above(c, DropMin(t, upd)), upd)
    decreases t
  {
    if t.left.Branch? {
      var c' := InLeft(c, t.entry, t.depth, t.aug, t.right);
      VictimClimb(c', t.left, upd);
      assert Above(c', DropMin(t.left, upd)) == t.(left := DropMin(t.left, upd));
    }
  }

  lemma {:induction false} WithoutVictimIs<E, A>(c: Ctx<E, A>, t: Tree<E, A>, upd: Update<E, A>)
    requires t.Branch? && t.right.Branch? && DepthsExact(Plug(c, t))
    ensures DepthsExact(t) && SidesExact(c)
    ensures WithoutVictim(c, t, upd) == Bubble(c, t.(right := DropMin(t.right, upd)), upd)
  {
    SidesOfExact(c, t);
    var c' := InRight(c, t.left, t.entry, t.depth, t.aug);
    VictimClimb(c', t.right, upd);
    assert Above(c', DropMin(t.right, upd)) == t.(right := DropMin(t.right, upd));
  }

  /** Taking out the first entry makes the tree lower, told by the leans down its left spine: the loss at
  the bottom reaches the top unless a node on the way was even, or rotates up an even right child. */
  ghost predicate MinShrinks<E, A>(t: Tree<E, A>)
    requires t.Branch?
  {
    t.left.Leaf? || (MinShrinks(t.left) && Lean(t) != 0 && (Lean(t) < 0 && t.right.Branch? ==> Lean(t.right) != 0))
  }

  lemma {:induction false} DropMinHeight<E, A>(t: Tree<E, A>, upd: Update<E, A>)
    requires t.Branch? && DepthsExact(t) && Balanced(t)
    ensures Height(DropMin(t, upd)) == Height(t) - (if MinShrinks(t) then 1 else 0)
    ensures MinShrinks(t) ==> Balanced(DropMin(t, upd))
  {
    if t.left.Leaf? {
      HeightPositive(t.right);
    } else {
      DropMinHeight(t.left, upd);
      DropMinStep(t, DropMin(t.left, upd), upd);
    }
  }

  lemma {:induction false} DropMinStep<E, A>(t: Tree<E, A>, l: Tree<E, A>, upd: Update<E, A>)
    requires t.Branch? && t.left.Branch? && DepthsExact(t) && Balanced(t) && DepthsExact(l)
    requires Height(l) == Height(t.left) - (if MinShrinks(t.left) then 1 else 0)
    requires MinShrinks(t.left) ==> Balanced(l)
    ensures Height(Settle(t.(left := l), upd)) == Height(t) - (if MinShrinks(t) then 1 else 0)
    ensures MinShrinks(t) ==> Balanced(Settle(t.(left := l), upd))
  {
    if MinShrinks(t.left) {
      StepUp(InLeft(Top, t.entry, t.depth, t.aug, t.right), l, upd, Height(t.left));
    } else {
      RefreshOnly(t.(left := l), upd);
    }
  }

  // ----- what a climb leaves around the subtree it started from -----

  ghost function Beside<E, A>(c: Ctx<E, A>): Tree<E, A>
    requires !c.Top?
  {
    if c.InLeft? then c.right else c.left
  }

  /** The surroundings of a subtree of height `h` withstand the loss of `k` of its levels, one after the
  other: with none, no ancestor rotates; with two, they are those of an AVL tree. */
  ghost predicate Withstands<E, A>(c: Ctx<E, A>, h: int, k: nat) {
    c.Top? ||
    (&& Near(h, Sibling(c))
     && (k > 1 || (k == 1 && Sibling(c) > h) ==> Balanced(Beside(c)))
     && Withstands(c.up, 1 + Max(h, Sibling(c)), if k == 1 && Sibling(c) == h then 0 else k))
  }

  lemma {:induction false} WithstandsLess<E, A>(c: Ctx<E, A>, h: int, k: nat, k': nat)
    requires Withstands(c, h, k) && k' <= k
    ensures Withstands(c, h, k')
  {
    if !c.Top? {
      WithstandsLess(c.up, 1 + Max(h, Sibling(c)), if k == 1 && Sibling(c) == h then 0 else k,
        if k' == 1 && Sibling(c) == h then 0 else k');
    }
  }

  lemma {:induction false} BalancedWithstands<E, A>(c: Ctx<E, A>, h: int)
    requires CtxBalanced(c, h)
    ensures Withstands(c, h, 2)
  {
    if !c.Top? { BalancedWithstands(c.up, 1 + Max(h, Sibling(c))); }
  }

  /** One side of a tree, and where that side is when the tree is put at `up`. */
  function Side<E, A>(r: Tree<E, A>, left: bool): Tree<E, A>
    requires r.Branch?
  {
    if left then r.left else r.right
  }

  function Under<E, A>(r: Tree<E, A>, left: bool, up: Ctx<E, A>): (d: Ctx<E, A>)
    requires r.Branch?
    ensures Plug(d, Side(r, left)) == Plug(up, r)
  {
    if left then InLeft(up, r.entry, r.depth, r.aug, r.right) else InRight(up, r.left, r.entry, r.depth, r.aug)
  }

  /** What its parent withstands, given what the position itself does. */
  ghost function Passed(h: int, sib: int, k: nat): nat { if k == 1 && sib == h then 0 else k }

  /** One level of surroundings: the position lost `h - m` levels, and its parent is now `g` high. */
  lemma {:induction false} OneLevel<E, A>(d: Ctx<E, A>, sib: int, h: int, m: int, k: nat, g: int)
    requires !d.Top? && sib == Sibling(d) && m <= h <= m + 1 && h - m <= k <= 2 && Near(h, sib) && Near(m, sib)
    requires k > 1 || (k == 1 && sib > h) ==> Balanced(Beside(d))
    requires g == 1 + Max(m, sib) && Withstands(d.up, g, Passed(h, sib, k) - (1 + Max(h, sib) - g))
    ensures Withstands(d, m, k - (h - m))
  {
    WithstandsLess(d.up, g, Passed(h, sib, k) - (1 + Max(h, sib) - g), Passed(m, sib, k - (h - m)));
  }

  /** Two levels of surroundings around a subtree of height `m`. */
  lemma {:induction false} TwoLevels<E, A>(d: Ctx<E, A>, m: int, k: nat, g: int, j: nat)
    requires !d.Top? && !d.up.Top? && k <= 1 && k <= j
    requires m - 1 <= Sibling(d) <= m && Near(m + 1, Sibling(d.up)) && g == 1 + Max(m + 1, Sibling(d.up))
    requires k == 1 && Sibling(d) < m && Sibling(d.up) > m + 1 ==> Balanced(Beside(d.up))
    requires Withstands(d.up.up, g, j)
    ensures Withstands(d, m, k)
  {
    var sib, top := Sibling(d), Sibling(d.up);
    var k' := Passed(m, sib, k);
    var k2 := Passed(m + 1, top, k');
    WithstandsLess(d.up.up, g, j, k2);
    UpOne(d.up, m + 1, k', top, g);
    UpOne(d, m, k, sib, m + 1);
  }

  /** The definition, one level up. */
  lemma {:induction false} UpOne<E, A>(c: Ctx<E, A>, h: int, k: nat, sib: int, g: int)
    requires !c.Top? && sib == Sibling(c) && g == 1 + Max(h, sib)
    ensures Withstands(c, h, k) <==>
      && Near(h, sib) && (k > 1 || (k == 1 && sib > h) ==> Balanced(Beside(c)))
      && Withstands(c.up, g, Passed(h, sib, k))
  {
  }

  /** What a rotation puts around the lighter side `s`, of height `m`: it moves as a whole and stays a child of
  the same node, on the same side. */
  ghost predicate Rotated<E, A>(r: Tree<E, A>, left: bool, s: Tree<E, A>, m: int) {
    && r.Branch? && Side(r, left).Branch? && Side(Side(r, left), left) == s && Height(Side(r, left)) == m + 1
    && m - 1 <= Height(Side(Side(r, left), !left)) <= m
    && m + 1 <= Height(Side(r, !left)) <= m + 2 && Height(r) == 1 + Height(Side(r, !left))
    && (Height(Side(Side(r, left), !left)) < m && Height(Side(r, !left)) > m + 1 ==> Balanced(Side(r, !left)))
  }

  lemma {:induction false} TurnLeftPieces<E, A>(t: Tree<E, A>, upd: Update<E, A>, m: int)
    requires t.Branch? && DepthsExact(t.left) && DepthsExact(t.right) && Balanced(t.right)
    requires Height(t.left) == m && Height(t.right) == m + 2
    ensures Rotated(Settle(t, upd), true, t.left, m)
  {
    SettleLeft(t, upd);
    var x := t.right.left;
    TurnedLeftHeight(t, upd, Lean(t.right) >= 0);
    if Lean(t.right) >= 0 {
      RefreshBalance(x.left, upd);
      MakeBalance(x.right, t.right.entry, t.right.right, upd);
    }
  }

  lemma {:induction false} TurnRightPieces<E, A>(t: Tree<E, A>, upd: Update<E, A>, m: int)
    requires t.Branch? && DepthsExact(t.left) && DepthsExact(t.right) && Balanced(t.left)
    requires Height(t.right) == m && Height(t.left) == m + 2
    ensures Rotated(Settle(t, upd), false, t.right, m)
  {
    SettleRight(t, upd);
    var x := t.left.right;
    TurnedRightHeight(t, upd, Lean(t.left) <= 0);
    if Lean(t.left) <= 0 {
      RefreshBalance(x.right, upd);
      MakeBalance(t.left.left, t.left.entry, x.left, upd);
    }
  }

  /** One settled step above a position that kept its height `h` or lost a level, `m` being the height it has:
  `r` is what the step makes of the subtree around `s`. */
  ghost predicate Stepped<E, A>(c: Ctx<E, A>, s: Tree<E, A>, h: int, m: int, sib: int, r: Tree<E, A>)
    requires !c.Top?
  {
    if m < h < sib then Rotated(r, c.InLeft?, s, m)
    else r.Branch? && Side(r, c.InLeft?) == s && Side(r, !c.InLeft?) == Beside(c) && Height(r) == 1 + Max(m, sib)
  }

  lemma {:induction false} StepPieces<E, A>(c: Ctx<E, A>, s: Tree<E, A>, upd: Update<E, A>, h: int, m: int, sib: int)
    requires !c.Top? && DepthsExact(s) && SidesExact(c)
    requires m == Height(s) && m <= h <= m + 1 && sib == Sibling(c) && Near(h, sib)
    requires m < h < sib ==> Balanced(Beside(c))
    ensures Stepped(c, s, h, m, sib, Settle(Above(c, s), upd))
  {
    var t := Above(c, s);
    if !(m < h < sib) {
      RefreshOnly(t, upd);
    } else if c.InLeft? {
      TurnLeftPieces(t, upd, m);
    } else {
      TurnRightPieces(t, upd, m);
    }
  }

  /** The heights in such a step: at most the level lost below is lost again. */
  lemma {:induction false} SteppedHeight<E, A>(c: Ctx<E, A>, s: Tree<E, A>, h: int, m: int, sib: int, r: Tree<E, A>)
    requires !c.Top? && Stepped(c, s, h, m, sib, r) && Near(h, sib) && m <= h <= m + 1
    ensures 0 <= 1 + Max(h, sib) - Height(r) <= h - m
    ensures sib == h ==> Height(r) == 1 + h
  {
  }

  /** Where `s` then is, given where `r` is. */
  lemma {:induction false} HangRotated<E, A>(s: Tree<E, A>, m: int, k: nat, left: bool, r: Tree<E, A>, g: int, j: nat,
      up: Ctx<E, A>)
    returns (d: Ctx<E, A>)
    requires Rotated(r, left, s, m) && g == Height(r) && k <= 1 && k <= j && Withstands(up, g, j)
    ensures Plug(d, s) == Plug(up, r)
    ensures !d.Top? && (d.InLeft? <==> left)
    ensures Withstands(d, m, k)
  {
    var p := Side(r, left);
    d := Under(p, left, Under(r, left, up));
    TwoLevels(d, m, k, g, j);
  }

  lemma {:induction false} HangBack<E, A>(c: Ctx<E, A>, s: Tree<E, A>, h: int, m: int, sib: int, k: nat,
                                         r: Tree<E, A>, g: int, hp: int, kp: nat, up: Ctx<E, A>) returns (d: Ctx<E, A>)
    requires !c.Top? && Stepped(c, s, h, m, sib, r) && Near(h, sib)
    requires k > 1 || (k == 1 && sib > h) ==> Balanced(Beside(c))
    requires m == Height(s) && sib == Sibling(c) && g == Height(r) && hp == 1 + Max(h, sib) && kp == Passed(h, sib, k)
    requires m <= h <= m + 1 && h - m <= k <= 2
    requires 0 <= hp - g <= kp && Withstands(up, g, kp - (hp - g))
    ensures Plug(d, s) == Plug(up, r)
    ensures !d.Top? && (d.InLeft? <==> c.InLeft?)
    ensures Withstands(d, m, k - (h - m))
  {
    if m < h < sib {
      d := HangRotated(s, m, k - 1, c.InLeft?, r, g, k - (h + 2 - g), up);
    } else {
      d := Under(r, c.InLeft?, up);
      OneLevel(d, sib, h, m, k, g);
    }
  }

  lemma {:induction false} Step<E, A>(c: Ctx<E, A>, s: Tree<E, A>, upd: Update<E, A>, h: int, m: int, sib: int, hp: int)
    returns (r: Tree<E, A>, g: int)
    requires !c.Top? && DepthsExact(s) && SidesExact(c) && hp == 1 + Max(h, sib)
    requires m == Height(s) && m <= h <= m + 1 && sib == Sibling(c) && Near(h, sib)
    requires m < h < sib ==> Balanced(Beside(c))
    ensures r.Branch? && DepthsExact(r) && g == Height(r) && Stepped(c, s, h, m, sib, r)
    ensures 0 <= hp - g <= h - m && (sib == h ==> g == hp)
    ensures Bubble(c.up, Above(c, s), upd) == if c.up.Top? then r else Bubble(c.up.up, Above(c.up, r), upd)
  {
    r := Settle(Above(c, s), upd);
    g := Height(r);
    StepPieces(c, s, upd, h, m, sib);
    SteppedHeight(c, s, h, m, sib, r);
  }

  /** The whole climb carries the subtree it started from along, on the side it was on, and leaves it in
  surroundings that withstand the losses still to come. `m` is its height and `h` the one it had. */
  lemma {:induction false} Climb<E, A>(c: Ctx<E, A>, s: Tree<E, A>, upd: Update<E, A>, h: int, m: int, k: nat)
      returns (d: Ctx<E, A>)
    requires !c.Top? && DepthsExact(s) && SidesExact(c) && Withstands(c, h, k)
    requires m == Height(s) && m <= h <= m + 1 && h - m <= k <= 2
    ensures Plug(d, s) == Bubble(c.up, Above(c, s), upd)
    ensures !d.Top? && (d.InLeft? <==> c.InLeft?)
    ensures Withstands(d, m, k - (h - m))
    decreases c, 0
  {
    var sib := Sibling(c);
    var hp, kp := 1 + Max(h, sib), Passed(h, sib, k);
    UpOne(c, h, k, sib, hp);
    var r, g := Step(c, s, upd, h, m, sib, hp);
    var up := ClimbOn(c.up, r, upd, hp, g, kp);
    d := HangBack(c, s, h, m, sib, k, r, g, hp, kp, up);
  }

  lemma {:induction false} ClimbOn<E, A>(c: Ctx<E, A>, r: Tree<E, A>, upd: Update<E, A>, h: int, m: int, k: nat)
      returns (d: Ctx<E, A>)
    requires DepthsExact(r) && SidesExact(c) && Withstands(c, h, k)
    requires m == Height(r) && m <= h <= m + 1 && h - m <= k <= 2
    ensures Plug(d, r) == if c.Top? then r else Bubble(c.up, Above(c, r), upd)
    ensures Withstands(d, m, k - (h - m))
    decreases c, 1
  {
    d := Top;
    if !c.Top? { d := Climb(c, r, upd, h, m, k); }
  }

  // ----- where a node is once its right subtree has lost an entry -----

  /** The node `t` whose right subtree has become `q`, one level lower or not, turns down to the right. */
  ghost predicate TurnsWith<E, A>(t: Tree<E, A>, q: Tree<E, A>)
    requires t.Branch?
  {
    Height(t.left) == Height(q) + 2
  }

  /** The part of the left subtree that stays together and below the node: all of it, or its inner part after
  a turn. */
  ghost function Kept<E, A>(l: Tree<E, A>, turns: bool, upd: Update<E, A>): Tree<E, A>
    requires turns ==> l.Branch?
  {
    if !turns then l
    else if Lean(l) > 0 then l.right
    else if l.right.Leaf? then Leaf else Refresh(l.right.right, upd)
  }

  /** The node's own step: it becomes the root of `r` or, when it turns, the right child. */
  lemma {:induction false} NodeStep<E, A>(c: Ctx<E, A>, t: Tree<E, A>, q: Tree<E, A>, upd: Update<E, A>)
    returns (r: Tree<E, A>, s: Tree<E, A>)
    requires t.Branch? && DepthsExact(t.left) && DepthsExact(q) && Balanced(t.left) && SidesExact(c)
    requires Near(Height(t.left), Height(t.right)) && Height(t.right) - 1 <= Height(q) <= Height(t.right)
    ensures r.Branch? && DepthsExact(r) && Height(t) - 1 <= Height(r) <= Height(t)
    ensures Bubble(c, t.(right := q), upd) == if c.Top? then r else Bubble(c.up, Above(c, r), upd)
    ensures s.Branch? && s.entry == t.entry && s.right == q && Near(Height(s.left), Height(q))
    ensures (TurnsWith(t, q) ==> t.left.Branch?) && s.left == Kept(t.left, TurnsWith(t, q), upd)
    ensures !TurnsWith(t, q) ==> s == r && (Lean(t) == 0 ==> Height(r) == Height(t))
    ensures TurnsWith(t, q) ==>
      && Lean(t) == 1 && Lean(s) <= 0 && s == r.right
      && Height(s) <= Height(r.left) <= Height(s) + 1 && Height(r) == 1 + Height(r.left)
      && (Lean(s) < 0 && Height(r.left) > Height(s) ==> Balanced(r.left) && Height(r) == Height(t))
  {
    var u := t.(right := q);
    r := Settle(u, upd);
    if TurnsWith(t, q) {
      SettleRight(u, upd);
      TurnRightPieces(u, upd, Height(q));
      s := r.right;
    } else {
      RefreshOnly(u, upd);
      s := r;
    }
  }

  lemma {:induction false} TurnedSpot<E, A>(r: Tree<E, A>, up: Ctx<E, A>, g: int, m: int, h: int, j: nat)
    requires r.Branch? && h - 1 <= g <= h && h - g <= j <= 2 && Withstands(up, g, j - (h - g))
    requires m == Height(r.right) && m <= Height(r.left) <= m + 1 && g == 1 + Height(r.left)
    ensures Withstands(Under(r, false, up), m, 0)
    ensures j == 2 && (Height(r.left) > m ==> Balanced(r.left) && g == h) ==> Withstands(Under(r, false, up), m, 1)
  {
    WithstandsLess(up, g, j - (h - g), 0);
    if j == 2 && g == h { WithstandsLess(up, g, 2, 1); }
  }

  /** The node after the whole climb. With two losses withstood before, one more is withstood afterwards,
  unless the node turned and is even: then it does not pass one on. */
  lemma {:induction false} FocusMoves<E, A>(c: Ctx<E, A>, t: Tree<E, A>, q: Tree<E, A>, upd: Update<E, A>, j: nat)
    returns (d: Ctx<E, A>, s: Tree<E, A>)
    requires t.Branch? && DepthsExact(t.left) && DepthsExact(q) && Balanced(t.left) && SidesExact(c)
    requires Near(Height(t.left), Height(t.right)) && Height(t.right) - 1 <= Height(q) <= Height(t.right)
    requires j <= 2 && (Lean(t) != 0 ==> j > 0) && Withstands(c, Height(t), j)
    ensures Plug(d, s) == Bubble(c, t.(right := q), upd)
    ensures s.Branch? && s.entry == t.entry && s.right == q && Near(Height(s.left), Height(q))
    ensures (TurnsWith(t, q) ==> t.left.Branch?) && s.left == Kept(t.left, TurnsWith(t, q), upd)
    ensures !TurnsWith(t, q) ==> (d.InLeft? <==> c.InLeft?) && (d.Top? <==> c.Top?)
    ensures TurnsWith(t, q) ==> d.InRight? && Lean(s) <= 0
    ensures Withstands(d, Height(s), 0)
    ensures j == 2 && (TurnsWith(t, q) ==> Lean(s) != 0) ==> Withstands(d, Height(s), 1)
  {
    var r;
    r, s := NodeStep(c, t, q, upd);
    var h, g := Height(t), Height(r);
    var up := Top;
    if !c.Top? { up := Climb(c, r, upd, h, g, j); }
    d := up;
    if TurnsWith(t, q) {
      d := Under(r, false, up);
      TurnedSpot(r, up, g, Height(s), h, j);
    } else {
      WithstandsLess(up, g, j - (h - g), 0);
      if j == 2 { WithstandsLess(up, g, j - (h - g), 1); }
    }
  }

  /** Entries occur once, so the code's own search for the node ends at that focus. */
  lemma {:induction false} RefocusIs<E, A>(c: Ctx<E, A>, t: Tree<E, A>, upd: Update<E, A>, d: Ctx<E, A>, s: Tree<E, A>)
    requires t.Branch? && t.right.Branch? && DepthsExact(Plug(c, t)) && Distinct(InOrder(Plug(c, t)))
    requires Plug(d, s) == WithoutVictim(c, t, upd) && s.Branch? && s.entry == t.entry
    ensures Refocus(c, t, upd) == (d, s)
  {
    StillDistinct(c, t, upd);
    LocateIs(d, s);
  }

  lemma {:induction false} StillDistinct<E, A>(c: Ctx<E, A>, t: Tree<E, A>, upd: Update<E, A>)
    requires t.Branch? && t.right.Branch? && DepthsExact(Plug(c, t)) && Distinct(InOrder(Plug(c, t)))
    ensures Distinct(InOrder(WithoutVictim(c, t, upd)))
  {
    var (vc, v) := Victim(c, t);
    WithoutVictimInOrder(c, t, upd);
    PlugInOrder(c, t);
    DistinctWithout(Before(c), InOrder(t.left), t.entry, InOrder(t.right), After(c), v.entry,
      InOrder(v.right) + After(vc));
  }

  /** The double rotation that turns the node down leaves it without a left child. */
  ghost predicate Stranded<E, A>(l: Tree<E, A>)
    requires l.Branch?
  {
    Lean(l) <= 0 && l.right.Branch? && l.right.right.Leaf?
  }

  /** When the node turns, an uneven left child leaves it one of its own. */
  lemma {:induction false} TurnLeavesLeft<E, A>(t: Tree<E, A>, q: Tree<E, A>)
    requires t.Branch? && Balanced(t.left) && TurnsWith(t, q)
    ensures t.left.Branch? && (q.Branch? && Lean(t.left) > 0 ==> t.left.right.Branch?)
    ensures Lean(t.left) <= 0 ==> t.left.right.Branch?
  {
    HeightPositive(q);
    HeightPositive(t.left);
    HeightPositive(t.left.left);
    HeightPositive(t.left.right);
  }

  /** The outcome by what the removal of the successor leaves of the right subtree. */
  lemma {:induction false} OutcomeWith<E, A>(c: Ctx<E, A>, t: Tree<E, A>, q: Tree<E, A>, upd: Update<E, A>, j: nat)
    requires t.Branch? && t.left.Branch? && t.right.Branch? && Balanced(t.left)
    requires DepthsExact(Plug(c, t)) && Distinct(InOrder(Plug(c, t)))
    requires DepthsExact(t.right) && q == DropMin(t.right, upd)
    requires Near(Height(t.left), Height(t.right)) && Height(t.right) - 1 <= Height(q) <= Height(t.right)
    requires j <= 2 && (Lean(t) != 0 ==> j > 0) && Withstands(c, Height(t), j)
    ensures var out := Remove(c, t, upd);
      if q.Leaf? then out.NullDereference?
      else if TurnsWith(t, q) then
        if Stranded(t.left) then out.NullDereference? else out.Removed?
      else if c.InLeft? then out.LostLink? else out.Removed?
  {
    WithoutVictimIs(c, t, upd);
    var d, s := FocusMoves(c, t, q, upd, j);
    RefocusIs(c, t, upd, d, s);
    if TurnsWith(t, q) { TurnLeavesLeft(t, q); }
  }

  lemma {:induction false} DropMinLeaf<E, A>(t: Tree<E, A>, upd: Update<E, A>)
    requires t.Branch? && DepthsExact(t)
    ensures DropMin(t, upd).Leaf? <==> t.left.Leaf? && t.right.Leaf?
  {
  }

  /** The node itself turns down to the right when its successor goes: it leans left, and its right
  subtree becomes lower. */
  ghost predicate Turns<E, A>(t: Tree<E, A>)
    requires t.Branch? && t.right.Branch?
  {
    Lean(t) > 0 && MinShrinks(t.right)
  }

  ghost predicate Alone<E, A>(t: Tree<E, A>) { t.Branch? && t.left.Leaf? && t.right.Leaf? }

  lemma {:induction false} OneEntry<E, A>(t: Tree<E, A>)
    requires Alone(t)
    ensures InOrder(t) == [t.entry]
  {
    assert InOrder(t.left) == [] && InOrder(t.right) == [];
  }

  /** Removing a node with two children from an AVL tree, told from the tree before the call: it goes
  through exactly when the right subtree has more than one node and either the node turns down and still
  finds a left child, or it stays in place and is not a left child. */
  lemma {:induction false} TwoChildOutcome<E, A>(c: Ctx<E, A>, t: Tree<E, A>, upd: Update<E, A>)
    requires t.Branch? && t.left.Branch? && t.right.Branch?
    requires DepthsExact(Plug(c, t)) && Balanced(Plug(c, t)) && Distinct(InOrder(Plug(c, t)))
    ensures var out := Remove(c, t, upd);
      if Alone(t.right) then out.NullDereference?
      else if Turns(t) then
        if Stranded(t.left) then out.NullDereference? else out.Removed?
      else if c.InLeft? then out.LostLink? else out.Removed?
  {
    SidesOfExact(c, t);
    CtxOfBalanced(c, t);
    BalancedWithstands(c, Height(t));
    DropMinHeight(t.right, upd);
    DropMinLeaf(t.right, upd);
    OutcomeWith(c, t, DropMin(t.right, upd), upd, 2);
  }

  /** So: a node comes out of an AVL tree exactly when it has two children and meets that condition, or has
  at most one and is not a root with one. */
  ghost predicate Removable<E, A>(c: Ctx<E, A>, t: Tree<E, A>)
    requires t.Branch?
  {
    if t.left.Leaf? || t.right.Leaf? then c.Top? ==> Alone(t)
    else !Alone(t.right) && if Turns(t) then !Stranded(t.left) else !c.InLeft?
  }

  lemma {:induction false} RemovedWhen<E, A>(c: Ctx<E, A>, t: Tree<E, A>, upd: Update<E, A>)
    requires t.Branch? && DepthsExact(Plug(c, t)) && Balanced(Plug(c, t)) && Distinct(InOrder(Plug(c, t)))
    ensures Remove(c, t, upd).Removed? <==> Removable(c, t)
  {
    if t.left.Branch? && t.right.Branch? { TwoChildOutcome(c, t, upd); }
  }

  // ----- what is left of the node's left subtree -----

  /** Where the kept part hangs: left of `q`, in surroundings that withstand one more loss where it counts. */
  ghost predicate HungLeft<E, A>(d: Ctx<E, A>, l: Tree<E, A>, q: Tree<E, A>, j: nat) {
    && d.InLeft? && d.right == q && Near(Height(l), Height(q))
    && Withstands(d.up, 1 + Max(Height(l), Height(q)), if j == 2 && Height(l) != Height(q) then 1 else 0)
  }

  /** Once the successor has taken the node's place, that part hangs below it, on the left. */
  lemma {:induction false} LeftSurvives<E, A>(c: Ctx<E, A>, t: Tree<E, A>, q: Tree<E, A>, upd: Update<E, A>, j: nat)
    returns (d: Ctx<E, A>, l: Tree<E, A>)
    requires t.Branch? && t.left.Branch? && t.right.Branch? && Balanced(t.left)
    requires DepthsExact(Plug(c, t)) && Distinct(InOrder(Plug(c, t)))
    requires DepthsExact(t.right) && q == DropMin(t.right, upd)
    requires Near(Height(t.left), Height(t.right)) && Height(t.right) - 1 <= Height(q) <= Height(t.right)
    requires j <= 2 && (Lean(t) != 0 ==> j > 0) && Withstands(c, Height(t), j)
    requires Remove(c, t, upd).Removed?
    ensures l == Kept(t.left, TurnsWith(t, q), upd) && l.Branch? && HungLeft(d, l, q, j)
    ensures Plug(d, l) == Remove(c, t, upd).tree
  {
    WithoutVictimIs(c, t, upd);
    var d', s := FocusMoves(c, t, q, upd, j);
    var v := Replaced(c, t, upd, d', s);
    l := s.left;
    d := SurvivesHung(d', s, v, upd, j);
  }

  lemma {:induction false} SurvivesHung<E, A>(c: Ctx<E, A>, s: Tree<E, A>, v: Tree<E, A>, upd: Update<E, A>, j: nat)
    returns (d: Ctx<E, A>)
    requires s.Branch? && v.Branch? && SidesExact(c) && DepthsExact(s) && Near(Height(s.left), Height(s.right))
    requires Withstands(c, Height(s), 0) && (j == 2 && Lean(s) != 0 ==> Withstands(c, Height(s), 1))
    ensures Plug(d, s.left) == Bubble(c, Impersonate(s, v), upd) && HungLeft(d, s.left, s.right, j)
  {
    d := SurvivesClimb(c, s, v, upd, if j == 2 && Lean(s) != 0 then 1 else 0);
  }

  /** The tree a completed removal ends in, from where the node was once its successor was out. */
  lemma {:induction false} Replaced<E, A>(c: Ctx<E, A>, t: Tree<E, A>, upd: Update<E, A>, d: Ctx<E, A>, s: Tree<E, A>)
    returns (v: Tree<E, A>)
    requires t.Branch? && t.left.Branch? && t.right.Branch? && DepthsExact(Plug(c, t)) && Distinct(InOrder(Plug(c, t)))
    requires Plug(d, s) == WithoutVictim(c, t, upd) && s.Branch? && s.entry == t.entry && Remove(c, t, upd).Removed?
    ensures v.Branch? && s.left.Branch? && SidesExact(d) && DepthsExact(s)
    ensures Remove(c, t, upd).tree == Bubble(d, Impersonate(s, v), upd)
  {
    RefocusIs(c, t, upd, d, s);
    v := Victim(c, t).1;
  }

  lemma {:induction false} SurvivesClimb<E, A>(c: Ctx<E, A>, s: Tree<E, A>, v: Tree<E, A>, upd: Update<E, A>, k: nat)
    returns (d: Ctx<E, A>)
    requires s.Branch? && v.Branch? && SidesExact(c) && DepthsExact(s)
    requires k <= 2 && Withstands(c, Height(s), k) && Near(Height(s.left), Height(s.right))
    ensures d.InLeft? && Plug(d, s.left) == Bubble(c, Impersonate(s, v), upd)
    ensures Beside(d) == s.right && Withstands(d.up, Height(s), k)
  {
    var u := Impersonate(s, v);
    RefreshOnly(u, upd);
    var r := Settle(u, upd);
    var up := Top;
    if !c.Top? { up := Climb(c, r, upd, Height(s), Height(s), k); }
    d := Under(r, true, up);
  }
}
