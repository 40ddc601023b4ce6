/** What the steps of `avl_remove` do to cached values when one node's cache is stale: a store to a payload
leaves the caches above it alone, and only the nodes a climb passes or a rotation turns are computed anew. */
module AvlStale {
  import opened Seqs
  import opened AvlTree
  import opened AvlPath
  import opened AvlInsert
  import opened AvlRemove
  import opened AvlBalance
  import opened AvlTwoChild
  import opened AvlPair

  /** Every cache is exact, save perhaps that of the node of entry `x`. */
  ghost predicate ExactSave<E, A>(t: Tree<E, A>, x: Option<E>, upd: Update<E, A>) {
    t.Branch? ==>
      && (x == Some(t.entry) || t.aug == upd(t.entry, AugOf(t.left), AugOf(t.right)))
      && ExactSave(t.left, x, upd) && ExactSave(t.right, x, upd)
  }

  ghost predicate SidesSave<E, A>(c: Ctx<E, A>, x: Option<E>, upd: Update<E, A>) {
    c.Top? || (ExactSave(Beside(c), x, upd) && SidesSave(c.up, x, upd))
  }

  lemma {:induction false} SaveNone<E, A>(t: Tree<E, A>, upd: Update<E, A>)
    ensures ExactSave(t, None, upd) <==> AugExact(t, upd)
  {
    if t.Branch? {
      SaveNone(t.left, upd);
      SaveNone(t.right, upd);
    }
  }

  /** Where `x` is not, nothing is excused. */
  lemma {:induction false} SaveElsewhere<E, A>(t: Tree<E, A>, x: E, upd: Update<E, A>)
    requires ExactSave(t, Some(x), upd) && x !in InOrder(t)
    ensures AugExact(t, upd)
  {
    if t.Branch? {
      assert InOrder(t)[|InOrder(t.left)|] == t.entry;
      SaveElsewhere(t.left, x, upd);
      SaveElsewhere(t.right, x, upd);
    }
  }

  lemma {:induction false} SaveMore<E, A>(t: Tree<E, A>, x: Option<E>, upd: Update<E, A>)
    requires AugExact(t, upd)
    ensures ExactSave(t, x, upd)
  {
    if t.Branch? {
      SaveMore(t.left, x, upd);
      SaveMore(t.right, x, upd);
    }
  }

  lemma {:induction false} MakeSave<E, A>(l: Tree<E, A>, e: E, r: Tree<E, A>, x: Option<E>, upd: Update<E, A>)
    requires ExactSave(l, x, upd) && ExactSave(r, x, upd)
    ensures ExactSave(Make(l, e, r, upd), x, upd)
  {
  }

  lemma {:induction false} RefreshSave<E, A>(t: Tree<E, A>, x: Option<E>, upd: Update<E, A>)
    requires ExactSave(t, x, upd)
    ensures ExactSave(Refresh(t, upd), x, upd)
  {
  }

  lemma {:induction false} SettleSave<E, A>(t: Tree<E, A>, x: Option<E>, upd: Update<E, A>)
    requires t.Branch? && DepthsExact(t.left) && DepthsExact(t.right)
    requires ExactSave(t.left, x, upd) && ExactSave(t.right, x, upd)
    ensures ExactSave(Settle(t, upd), x, upd)
  {
    if Lean(t) >= 2 {
      SettleRight(t, upd);
      TurnedRightSave(t, x, upd, Lean(t.left) <= 0);
    } else if Lean(t) <= -2 {
      SettleLeft(t, upd);
      TurnedLeftSave(t, x, upd, Lean(t.right) >= 0);
    } else {
      RefreshOnly(t, upd);
    }
  }

  lemma {:induction false} TurnedRightSave<E, A>(t: Tree<E, A>, x: Option<E>, upd: Update<E, A>, double: bool)
    requires t.Branch? && t.left.Branch? && (double ==> t.left.right.Branch?)
    requires ExactSave(t.left, x, upd) && ExactSave(t.right, x, upd)
    ensures ExactSave(TurnedRight(t, upd, double), x, upd)
  {
    var l, m := t.left, t.left.right;
    if double {
      MakeSave(l.left, l.entry, m.left, x, upd);
      RefreshSave(m.right, x, upd);
      MakeSave(Refresh(m.right, upd), t.entry, t.right, x, upd);
    } else {
      RefreshSave(l.left, x, upd);
      MakeSave(l.right, t.entry, t.right, x, upd);
    }
  }

  lemma {:induction false} TurnedLeftSave<E, A>(t: Tree<E, A>, x: Option<E>, upd: Update<E, A>, double: bool)
    requires t.Branch? && t.right.Branch? && (double ==> t.right.left.Branch?)
    requires ExactSave(t.left, x, upd) && ExactSave(t.right, x, upd)
    ensures ExactSave(TurnedLeft(t, upd, double), x, upd)
  {
    var l, m := t.right, t.right.left;
    if double {
      RefreshSave(m.left, x, upd);
      MakeSave(t.left, t.entry, Refresh(m.left, upd), x, upd);
      MakeSave(m.right, l.entry, l.right, x, upd);
    } else {
      RefreshSave(l.right, x, upd);
      MakeSave(t.left, t.entry, l.left, x, upd);
    }
  }

  /** The climb computes every cache on its path anew, so what was beside the path decides. */
  lemma {:induction false} BubbleSave<E, A>(c: Ctx<E, A>, t: Tree<E, A>, x: Option<E>, upd: Update<E, A>)
    requires t.Branch? && DepthsExact(t.left) && DepthsExact(t.right) && SidesExact(c)
    requires ExactSave(t.left, x, upd) && ExactSave(t.right, x, upd) && SidesSave(c, x, upd)
    ensures ExactSave(Bubble(c, t, upd), x, upd)
    decreases c
  {
    SettleSave(t, x, upd);
    if !c.Top? { BubbleSave(c.up, Above(c, Settle(t, upd)), x, upd); }
  }

  lemma {:induction false} SidesOfSave<E, A>(c: Ctx<E, A>, t: Tree<E, A>, x: Option<E>, upd: Update<E, A>)
    requires ExactSave(Plug(c, t), x, upd)
    ensures ExactSave(t, x, upd) && SidesSave(c, x, upd)
  {
    if !c.Top? { SidesOfSave(c.up, Above(c, t), x, upd); }
  }

  lemma {:induction false} LeftmostSave<E, A>(c: Ctx<E, A>, t: Tree<E, A>, x: Option<E>, upd: Update<E, A>)
    requires t.Branch? && ExactSave(t, x, upd) && SidesSave(c, x, upd)
    ensures var (d, s) := Leftmost(c, t); ExactSave(s.right, x, upd) && SidesSave(d, x, upd)
    decreases t
  {
    if t.left.Branch? { LeftmostSave(InLeft(c, t.entry, t.depth, t.aug, t.right), t.left, x, upd); }
  }

  /** A completed removal leaves stale at most what was stale beside its path. */
  lemma {:induction false} RemoveSave<E, A>(c: Ctx<E, A>, t: Tree<E, A>, x: Option<E>, upd: Update<E, A>)
    requires t.Branch? && DepthsExact(Plug(c, t)) && Remove(c, t, upd).Removed?
    requires ExactSave(t.left, x, upd) && ExactSave(t.right, x, upd) && SidesSave(c, x, upd)
    ensures ExactSave(Remove(c, t, upd).tree, x, upd)
  {
    SidesOfExact(c, t);
    if t.left.Leaf? || t.right.Leaf? {
      if !c.Top? { BubbleSave(c.up, Above(c, if t.left.Branch? then t.left else t.right), x, upd); }
    } else {
      WithoutVictimSave(c, t, x, upd);
      ReplaceSave(c, t, x, upd);
    }
  }

  lemma {:induction false} ReplaceSave<E, A>(c: Ctx<E, A>, t: Tree<E, A>, x: Option<E>, upd: Update<E, A>)
    requires t.Branch? && t.left.Branch? && t.right.Branch? && DepthsExact(Plug(c, t)) && Remove(c, t, upd).Removed?
    requires ExactSave(WithoutVictim(c, t, upd), x, upd)
    ensures ExactSave(Remove(c, t, upd).tree, x, upd)
  {
    var (d, s) := Refocus(c, t, upd);
    SidesOfSave(d, s, x, upd);
    BubbleSave(d, Impersonate(s, Victim(c, t).1), x, upd);
  }

  lemma {:induction false} WithoutVictimSave<E, A>(c: Ctx<E, A>, t: Tree<E, A>, x: Option<E>, upd: Update<E, A>)
    requires t.Branch? && t.right.Branch? && DepthsExact(Plug(c, t))
    requires ExactSave(t.left, x, upd) && ExactSave(t.right, x, upd) && SidesSave(c, x, upd)
    ensures ExactSave(WithoutVictim(c, t, upd), x, upd)
  {
    var (vc, v) := Victim(c, t);
    SidesOfExact(vc, v);
    LeftmostSave(InRight(c, t.left, t.entry, t.depth, t.aug), t.right, x, upd);
    BubbleSave(vc.up, Above(vc, v.right), x, upd);
  }

  // ----- where the stale node is -----

  lemma {:induction false} DistinctParts<E>(a: seq<E>, x: E, b: seq<E>)
    requires Distinct(a + [x] + b)
    ensures Distinct(a) && Distinct(b) && x !in a && x !in b && (forall y :: y in a ==> y !in b)
  {
    var s := a + [x] + b;
    assert forall i :: 0 <= i < |a| ==> a[i] == s[i];
    assert s[|a|] == x;
    assert forall i :: 0 <= i < |b| ==> b[i] == s[|a| + 1 + i];
  }

  lemma {:induction false} DistinctMiddle<E>(pre: seq<E>, s: seq<E>, post: seq<E>)
    requires Distinct(pre + s + post)
    ensures Distinct(s)
  {
    assert forall i :: 0 <= i < |s| ==> s[i] == (pre + s + post)[|pre| + i];
  }

  lemma {:induction false} DistinctBelow<E, A>(c: Ctx<E, A>, t: Tree<E, A>)
    requires Distinct(InOrder(Plug(c, t)))
    ensures Distinct(InOrder(t))
  {
    PlugInOrder(c, t);
    DistinctMiddle(Before(c), InOrder(t), After(c));
  }

  /** A stale node inside `t` is beside no position above it. */
  lemma {:induction false} SidesElsewhere<E, A>(c: Ctx<E, A>, t: Tree<E, A>, x: E, upd: Update<E, A>)
    requires Distinct(InOrder(Plug(c, t))) && x in InOrder(t) && SidesSave(c, Some(x), upd)
    ensures SidesSave(c, None, upd)
  {
    if !c.Top? {
      var u := Above(c, t);
      DistinctBelow(c.up, u);
      DistinctParts(InOrder(u.left), u.entry, InOrder(u.right));
      SaveElsewhere(Beside(c), x, upd);
      SaveNone(Beside(c), upd);
      SidesElsewhere(c.up, u, x, upd);
    }
  }

  /** The node in focus is the stale one: everything around and below it is exact. */
  lemma {:induction false} StaleAt<E, A>(c: Ctx<E, A>, s: Tree<E, A>, upd: Update<E, A>)
    requires s.Branch? && Distinct(InOrder(Plug(c, s))) && ExactSave(Plug(c, s), Some(s.entry), upd)
    ensures SidesSave(c, None, upd) && AugExact(s.left, upd) && AugExact(s.right, upd)
    ensures AugExact(Plug(c, s), upd) <==> AugExact(s, upd)
  {
    SidesOfSave(c, s, Some(s.entry), upd);
    DistinctBelow(c, s);
    DistinctParts(InOrder(s.left), s.entry, InOrder(s.right));
    assert InOrder(s)[|InOrder(s.left)|] == s.entry;
    SidesElsewhere(c, s, s.entry, upd);
    SaveElsewhere(s.left, s.entry, upd);
    SaveElsewhere(s.right, s.entry, upd);
    SaveNone(Plug(c, s), upd);
    SaveNone(s, upd);
    if AugExact(s, upd) { PlugSave(c, s, s.entry, upd); }
    if AugExact(Plug(c, s), upd) { SidesOfSave(c, s, None, upd); }
  }

  /** A tree that is exact but for one node is exact if that node is. */
  lemma {:induction false} PlugSave<E, A>(c: Ctx<E, A>, s: Tree<E, A>, x: E, upd: Update<E, A>)
    requires ExactSave(Plug(c, s), Some(x), upd) && AugExact(s, upd) && SidesSave(c, None, upd)
    requires x in InOrder(s) && Distinct(InOrder(Plug(c, s)))
    ensures ExactSave(Plug(c, s), None, upd)
  {
    SaveNone(s, upd);
    if !c.Top? {
      var u := Above(c, s);
      SidesOfSave(c.up, u, Some(x), upd);
      DistinctBelow(c.up, u);
      DistinctParts(InOrder(u.left), u.entry, InOrder(u.right));
      SaveNone(Beside(c), upd);
      SaveNone(u, upd);
      PlugSave(c.up, u, x, upd);
    }
  }

  // ----- rotations that compute the stale node anew -----

  /** The nodes of `l` that are computed anew when the node above it turns down to the right. */
  ghost predicate Recomputed<E, A>(l: Tree<E, A>, x: E)
    requires l.Branch?
  {
    || x == l.entry
    || (Lean(l) <= 0 && l.right.Branch? && (x == l.right.entry || (l.right.right.Branch? && x == l.right.right.entry)))
  }

  lemma {:induction false} NotIn<E, A>(t: Tree<E, A>, x: E, upd: Update<E, A>)
    requires t.Branch? && ExactSave(t, Some(x), upd) && Distinct(InOrder(t))
    ensures Distinct(InOrder(t.left)) && Distinct(InOrder(t.right))
    ensures x == t.entry ==> ExactSave(t.left, None, upd) && ExactSave(t.right, None, upd)
    ensures x in InOrder(t.right) ==> ExactSave(t.left, None, upd) && x != t.entry
  {
    DistinctParts(InOrder(t.left), t.entry, InOrder(t.right));
    if x == t.entry || x in InOrder(t.right) {
      SaveElsewhere(t.left, x, upd);
      SaveNone(t.left, upd);
    }
    if x == t.entry {
      SaveElsewhere(t.right, x, upd);
      SaveNone(t.right, upd);
    }
  }

  lemma {:induction false} RootIn<E, A>(t: Tree<E, A>)
    requires t.Branch?
    ensures t.entry in InOrder(t)
  {
    assert InOrder(t)[|InOrder(t.left)|] == t.entry;
  }

  /** The three parts of the heavy side are exact once its root, its inner child or that one's outer child
  is the stale node. */
  lemma {:induction false} TurnedRenews<E, A>(t: Tree<E, A>, x: E, upd: Update<E, A>)
    requires t.Branch? && t.left.Branch? && (Lean(t.left) <= 0 ==> t.left.right.Branch?)
    requires ExactSave(t.left, Some(x), upd) && Distinct(InOrder(t.left)) && Recomputed(t.left, x) &&
      ExactSave(t.right, None, upd)
    ensures ExactSave(TurnedRight(t, upd, Lean(t.left) <= 0), None, upd)
  {
    var l := t.left;
    NotIn(l, x, upd);
    if Lean(l) > 0 {
      RefreshSave(l.left, None, upd);
    } else {
      var m := l.right;
      RootIn(m);
      if x == l.entry {
        RefreshSave(m.right, None, upd);
      } else {
        if x != m.entry { RootIn(m.right); }
        NotIn(m, x, upd);
        OuterRenewed(m.right, x, upd);
      }
    }
  }

  lemma {:induction false} OuterRenewed<E, A>(t: Tree<E, A>, x: E, upd: Update<E, A>)
    requires ExactSave(t, None, upd) ||
      (t.Branch? && x == t.entry && ExactSave(t, Some(x), upd) && Distinct(InOrder(t)))
    ensures ExactSave(Refresh(t, upd), None, upd)
  {
    if ExactSave(t, None, upd) {
      RefreshSave(t, None, upd);
    } else {
      NotIn(t, x, upd);
    }
  }

  lemma {:induction false} DropMinSave<E, A>(t: Tree<E, A>, x: Option<E>, upd: Update<E, A>)
    requires t.Branch? && DepthsExact(t) && ExactSave(t, x, upd)
    ensures ExactSave(DropMin(t, upd), x, upd)
  {
    if t.left.Branch? {
      DropMinSave(t.left, x, upd);
      SettleSave(t.(left := DropMin(t.left, upd)), x, upd);
    }
  }

  /** So the whole tree is exact once the successor is out. */
  lemma {:induction false} TurnRenews<E, A>(c: Ctx<E, A>, t: Tree<E, A>, x: E, upd: Update<E, A>)
    requires t.Branch? && t.left.Branch? && t.right.Branch? && DepthsExact(Plug(c, t)) && Distinct(InOrder(Plug(c, t)))
    requires DepthsExact(t.right) && TurnsWith(t, DropMin(t.right, upd))
    requires ExactSave(Plug(c, t), Some(x), upd) && x in InOrder(t.left) && Recomputed(t.left, x)
    ensures ExactSave(WithoutVictim(c, t, upd), None, upd)
  {
    WithoutVictimIs(c, t, upd);
    SidesOfSave(c, t, Some(x), upd);
    DistinctBelow(c, t);
    DistinctParts(InOrder(t.left), t.entry, InOrder(t.right));
    SidesElsewhere(c, t, x, upd);
    SaveElsewhere(t.right, x, upd);
    SaveNone(t.right, upd);
    var q := DropMin(t.right, upd);
    DropMinSave(t.right, None, upd);
    var u := t.(right := q);
    SettleRight(u, upd);
    TurnedRenews(u, x, upd);
    if !c.Top? { BubbleSave(c.up, Above(c, Settle(u, upd)), None, upd); }
  }

  // ----- where it stays as it is -----

  /** The turn computes the last node of `l` anew. */
  ghost predicate Renews<E, A>(l: Tree<E, A>)
    requires l.Branch?
  {
    l.right.Leaf? || (Lean(l) <= 0 && (l.right.right.Leaf? || l.right.right.right.Leaf?))
  }

  lemma {:induction false} RenewsLast<E, A>(l: Tree<E, A>)
    requires l.Branch? && Renews(l)
    ensures Recomputed(l, LastOf(l).entry)
  {
    if l.right.Branch? {
      assert LastOf(l) == LastOf(l.right);
      if l.right.right.Branch? { assert LastOf(l.right) == LastOf(l.right.right); }
    }
  }

  lemma {:induction false} KeptKeepsLast<E, A>(l: Tree<E, A>, turns: bool, upd: Update<E, A>)
    requires l.Branch? && (turns ==> !Renews(l))
    ensures Kept(l, turns, upd).Branch? && LastOf(Kept(l, turns, upd)) == LastOf(l)
  {
    if turns {
      assert LastOf(l) == LastOf(l.right);
      if Lean(l) <= 0 { assert LastOf(l.right) == LastOf(l.right.right) == LastOf(l.right.right.right); }
    }
  }

  /** A tree that still has the stale node's subtree is still stale. */
  lemma {:induction false} StillStale<E, A>(d: Ctx<E, A>, w: Tree<E, A>, upd: Update<E, A>)
    requires w.Branch? && AugExact(Plug(d, w), upd)
    ensures AugExact(LastOf(w), upd)
  {
    RightmostIs(d, w);
    var (e, s) := Rightmost(d, w);
    SaveNone(Plug(d, w), upd);
    SidesOfSave(e, s, None, upd);
    SaveNone(s, upd);
  }

  // ----- one removal: the node after the stale one -----

  /** The removal of the next node computes the stale one anew: its climb passes it, or its turn does. */
  ghost predicate Renewing<E, A>(s: Tree<E, A>, m: Tree<E, A>)
    requires s.Branch? && m.Branch?
  {
    s.right.Branch? || (m.left.Branch? && m.right.Branch? && Turns(m) && Renews(m.left))
  }

  /** The next node hangs below the stale one. */
  lemma {:induction false} NextBelow<E, A>(c: Ctx<E, A>, s: Tree<E, A>, f: Ctx<E, A>, m: Tree<E, A>, upd: Update<E, A>)
    requires s.Branch? && s.right.Branch? && DepthsExact(Plug(c, s)) && Distinct(InOrder(Plug(c, s)))
    requires ExactSave(Plug(c, s), Some(s.entry), upd)
    requires (f, m) == Leftmost(InRight(c, s.left, s.entry, s.depth, s.aug), s.right) && m.Branch? &&
      Plug(f, m) == Plug(c, s)
    requires Remove(f, m, upd).Removed?
    ensures AugExact(Remove(f, m, upd).tree, upd)
  {
    StaleAt(c, s, upd);
    SaveNone(s.left, upd);
    SaveNone(s.right, upd);
    LeftmostSave(InRight(c, s.left, s.entry, s.depth, s.aug), s.right, None, upd);
    RemoveSave(f, m, None, upd);
    SaveNone(Remove(f, m, upd).tree, upd);
  }

  /** The next node has the stale one below it, the last of its left subtree. */
  lemma {:induction false} NextAbove<E, A>(f: Ctx<E, A>, m: Tree<E, A>, upd: Update<E, A>)
    requires m.Branch? && m.left.Branch? && DepthsExact(Plug(f, m)) && Balanced(Plug(f, m)) &&
      Distinct(InOrder(Plug(f, m)))
    requires ExactSave(Plug(f, m), Some(LastOf(m.left).entry), upd) && !AugExact(LastOf(m.left), upd)
    requires Remove(f, m, upd).Removed?
    ensures AugExact(Remove(f, m, upd).tree, upd) <==> m.right.Branch? && Turns(m) && Renews(m.left)
  {
    var x := LastOf(m.left).entry;
    SidesOfExact(f, m);
    CtxOfBalanced(f, m);
    RightmostIs(Top, m.left);
    if m.right.Branch? && Turns(m) && Renews(m.left) {
      RenewsLast(m.left);
      DropMinHeight(m.right, upd);
      TurnRenews(f, m, x, upd);
      ReplaceSave(f, m, None, upd);
      SaveNone(Remove(f, m, upd).tree, upd);
    } else {
      var d := LeftStays(f, m, upd);
      KeptKeepsLast(m.left, TurnsIfTwo(m), upd);
      if AugExact(Remove(f, m, upd).tree, upd) { StillStale(d, Kept(m.left, TurnsIfTwo(m), upd), upd); }
    }
  }

  /** Removing the node after the stale one leaves every cache exact exactly when the stale cache happened
  to be right, or is computed anew. */
  lemma {:induction false} NextCache<E, A>(t: Tree<E, A>, i: int, upd: Update<E, A>)
    requires DepthsExact(t) && Balanced(t) && Distinct(InOrder(t)) && 0 <= i < |InOrder(t)| - 1
    requires ExactSave(t, Some(InOrder(t)[i]), upd)
    ensures var ((c, s), (f, m)) := (FocusAt(Top, t, i), FocusAt(Top, t, i + 1));
      && s.Branch? && m.Branch? && Plug(f, m) == t
      && (Remove(f, m, upd).Removed? ==>
            (AugExact(Remove(f, m, upd).tree, upd) <==> AugExact(t, upd) || Renewing(s, m)))
  {
    FocusShape(Top, t, i);
    FocusShape(Top, t, i + 1);
    Adjacent(Top, t, i);
    var (c, s) := FocusAt(Top, t, i);
    var (f, m) := FocusAt(Top, t, i + 1);
    StaleAt(c, s, upd);
    if Remove(f, m, upd).Removed? {
      if s.right.Branch? {
        NextBelow(c, s, f, m, upd);
      } else if AugExact(t, upd) {
        ExactStays(f, m, upd);
      } else {
        RightmostIs(InLeft(f, m.entry, m.depth, m.aug, m.right), m.left);
        NextAbove(f, m, upd);
      }
    }
  }

  lemma {:induction false} ExactStays<E, A>(c: Ctx<E, A>, t: Tree<E, A>, upd: Update<E, A>)
    requires t.Branch? && DepthsExact(Plug(c, t)) && AugExact(Plug(c, t), upd) && Remove(c, t, upd).Removed?
    ensures AugExact(Remove(c, t, upd).tree, upd)
  {
    SaveNone(Plug(c, t), upd);
    SidesOfSave(c, t, None, upd);
    RemoveSave(c, t, None, upd);
    SaveNone(Remove(c, t, upd).tree, upd);
  }
}
