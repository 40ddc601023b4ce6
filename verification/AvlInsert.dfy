/** `avl_insert` (avl.c:41-49, 342-369) and what it promises: the entry lands at its sorted
place, the tree stays AVL, and every cached field ends exact, even where the caller had
already changed the payload of a node on the insertion path. */
module AvlInsert {
  import opened AvlTree

  /** A node as `avl_init` leaves it. */
  function Single<E, A>(e: E, a: A): (r: Tree<E, A>)
    ensures DepthsExact(r) && Height(r) == 0
  {
    assert Height(Branch(Leaf, e, 0, a, Leaf)) == 0;
    Branch(Leaf, e, 0, a, Leaf)
  }

  /** `avl_insert_rec`, for a node `avl_init` has set up (depth 0, no children). */
  function InsertRec<E, A>(t: Tree<E, A>, e: E, a: A, comp: (E, E) -> int, upd: Update<E, A>): (r: Tree<E, A>)
    requires t.Branch? && DepthsExact(t)
    ensures r.Branch? && DepthsExact(r)
  {
    if comp(t.entry, e) > 0 then
      Settle(t.(left := if t.left.Branch? then InsertRec(t.left, e, a, comp, upd) else Single(e, a)), upd)
    else
      Settle(t.(right := if t.right.Branch? then InsertRec(t.right, e, a, comp, upd) else Single(e, a)), upd)
  }

  /** `avl_insert`. */
  function Insert<E, A>(t: Tree<E, A>, e: E, a: A, comp: (E, E) -> int, upd: Update<E, A>): (r: Tree<E, A>)
    requires DepthsExact(t)
    ensures r.Branch? && DepthsExact(r)
  {
    if t.Leaf? then Single(e, a) else InsertRec(t, e, a, comp, upd)
  }

  /** `k` splits `s` into the entries `comp` sends `e` right of and those it sends `e` left of. */
  ghost predicate SplitsAt<E>(s: seq<E>, e: E, comp: (E, E) -> int, k: int) {
    && 0 <= k <= |s|
    && (forall i :: 0 <= i < k ==> comp(s[i], e) <= 0)
    && (forall i :: k <= i < |s| ==> comp(s[i], e) > 0)
  }

  function InsertAt<E>(s: seq<E>, k: int, e: E): (r: seq<E>)
    requires 0 <= k <= |s|
  {
    s[..k] + [e] + s[k..]
  }

  lemma {:induction false} InsertAtConcat<E>(l: seq<E>, x: E, r: seq<E>, k: int, e: E)
    requires 0 <= k <= |l| + 1 + |r|
    ensures k <= |l| ==> InsertAt(l + [x] + r, k, e) == InsertAt(l, k, e) + [x] + r
    ensures k > |l| ==> InsertAt(l + [x] + r, k, e) == l + [x] + InsertAt(r, k - |l| - 1, e)
  {
    var s := l + [x] + r;
    if k <= |l| {
      assert s[..k] == l[..k] && s[k..] == l[k..] + [x] + r;
    } else {
      var i := k - |l| - 1;
      assert s[..k] == l + [x] + r[..i] && s[k..] == r[i..];
    }
  }

  lemma {:induction false} SplitsAtConcat<E>(l: seq<E>, x: E, r: seq<E>, e: E, comp: (E, E) -> int, k: int)
    requires SplitsAt(l + [x] + r, e, comp, k)
    ensures comp(x, e) > 0 ==> SplitsAt(l, e, comp, k)
    ensures comp(x, e) <= 0 ==> k > |l| && SplitsAt(r, e, comp, k - |l| - 1)
  {
    var s := l + [x] + r;
    assert s[|l|] == x;
    assert forall i :: 0 <= i < |l| ==> l[i] == s[i];
    assert forall i :: 0 <= i < |r| ==> r[i] == s[|l| + 1 + i];
  }

  /** The position the comparator's answers lead to. */
  ghost function InsertPos<E, A>(t: Tree<E, A>, e: E, comp: (E, E) -> int): (k: int)
    ensures 0 <= k <= |InOrder(t)|
  {
    if t.Leaf? then 0
    else if comp(t.entry, e) > 0 then InsertPos(t.left, e, comp)
    else |InOrder(t.left)| + 1 + InsertPos(t.right, e, comp)
  }

  /** Whatever the comparator answers, insertion adds the entry there and moves nothing else. */
  lemma {:induction false} InsertThere<E, A>(t: Tree<E, A>, e: E, a: A, comp: (E, E) -> int, upd: Update<E, A>)
    requires DepthsExact(t)
    ensures InOrder(Insert(t, e, a, comp, upd)) == InsertAt(InOrder(t), InsertPos(t, e, comp), e)
  {
    if t.Branch? {
      var l, r, k := InOrder(t.left), InOrder(t.right), InsertPos(t, e, comp);
      InsertAtConcat(l, t.entry, r, k, e);
      if comp(t.entry, e) > 0 {
        InsertThere(t.left, e, a, comp, upd);
        SettleKeeps(t.(left := Insert(t.left, e, a, comp, upd)), upd);
      } else {
        InsertThere(t.right, e, a, comp, upd);
        SettleKeeps(t.(right := Insert(t.right, e, a, comp, upd)), upd);
      }
    }
  }

  lemma {:induction false} SplitsPos<E, A>(t: Tree<E, A>, e: E, comp: (E, E) -> int, k: int)
    requires SplitsAt(InOrder(t), e, comp, k)
    ensures InsertPos(t, e, comp) == k
  {
    if t.Branch? {
      SplitsAtConcat(InOrder(t.left), t.entry, InOrder(t.right), e, comp, k);
      if comp(t.entry, e) > 0 {
        SplitsPos(t.left, e, comp, k);
      } else {
        SplitsPos(t.right, e, comp, k - |InOrder(t.left)| - 1);
      }
    }
  }

  /** Insertion puts the new entry at its sorted place and moves nothing else. */
  lemma {:induction false} InsertInOrder<E, A>(t: Tree<E, A>, e: E, a: A, comp: (E, E) -> int, upd: Update<E, A>,
      k: int)
    requires DepthsExact(t) && SplitsAt(InOrder(t), e, comp, k)
    ensures InOrder(Insert(t, e, a, comp, upd)) == InsertAt(InOrder(t), k, e)
  {
    SplitsPos(t, e, comp, k);
    InsertThere(t, e, a, comp, upd);
  }

  /** The height difference the two subtrees of a branch really have. */
  ghost function Lean<E, A>(t: Tree<E, A>): int
    requires t.Branch?
  {
    Height(t.left) - Height(t.right)
  }

  /** The shapes the double rotation cannot repair: the tall child is even and its inner child
  leans outward. `avl_check_and_balance` sends an even child to the double rotation. */
  ghost predicate DoubleRotationMisses<E, A>(t: Tree<E, A>)
    requires t.Branch?
  {
    || (Lean(t) == 2 && t.left.Branch? && Lean(t.left) == 0 && t.left.right.Branch? && Lean(t.left.right) < 0)
    || (Lean(t) == -2 && t.right.Branch? && Lean(t.right) == 0 && t.right.left.Branch? && Lean(t.right.left) > 0)
  }

  ghost predicate Near(a: int, b: int) { -1 <= a - b <= 1 }

  lemma {:induction false} RefreshBalance<E, A>(t: Tree<E, A>, upd: Update<E, A>)
    ensures Height(Refresh(t, upd)) == Height(t)
    ensures Balanced(Refresh(t, upd)) <==> Balanced(t)
  {
  }

  lemma {:induction false} MakeBalance<E, A>(l: Tree<E, A>, e: E, r: Tree<E, A>, upd: Update<E, A>)
    ensures Height(Make(l, e, r, upd)) == 1 + Max(Height(l), Height(r))
    ensures Balanced(Make(l, e, r, upd)) <==> Balanced(l) && Balanced(r) && Near(Height(l), Height(r))
  {
  }

  lemma {:induction false} RotateRightBalance<E, A>(t: Tree<E, A>, upd: Update<E, A>)
    requires t.Branch? && t.left.Branch?
    ensures var (r, a, b, c) := (RotateRight(t, upd), Height(t.left.left), Height(t.left.right), Height(t.right));
      && Height(r) == 1 + Max(a, 1 + Max(b, c))
      && (Balanced(r) <==>
            && Balanced(t.left.left) && Balanced(t.left.right) && Balanced(t.right)
            && Near(b, c) && Near(a, 1 + Max(b, c)))
  {
    RefreshBalance(t.left.left, upd);
    MakeBalance(t.left.right, t.entry, t.right, upd);
    MakeBalance(Refresh(t.left.left, upd), t.left.entry, Make(t.left.right, t.entry, t.right, upd), upd);
  }

  lemma {:induction false} RotateLeftBalance<E, A>(t: Tree<E, A>, upd: Update<E, A>)
    requires t.Branch? && t.right.Branch?
    ensures var (r, a, b, c) := (RotateLeft(t, upd), Height(t.left), Height(t.right.left), Height(t.right.right));
      && Height(r) == 1 + Max(1 + Max(a, b), c)
      && (Balanced(r) <==>
            && Balanced(t.left) && Balanced(t.right.left) && Balanced(t.right.right)
            && Near(a, b) && Near(1 + Max(a, b), c))
  {
    RefreshBalance(t.right.right, upd);
    MakeBalance(t.left, t.entry, t.right.left, upd);
    MakeBalance(Make(t.left, t.entry, t.right.left, upd), t.right.entry, Refresh(t.right.right, upd), upd);
  }

  lemma {:induction false} DoubleRightBalance<E, A>(t: Tree<E, A>, upd: Update<E, A>)
    requires t.Branch? && t.left.Branch? && t.left.right.Branch?
    ensures var mid := t.left.right;
      var (r, a, b, c, d) := (RotateRight(t.(left := RotateLeft(t.left, upd)), upd),
                              Height(t.left.left), Height(mid.left), Height(mid.right), Height(t.right));
      && Height(r) == 1 + Max(1 + Max(a, b), 1 + Max(c, d))
      && (Balanced(r) <==>
            && Balanced(t.left.left) && Balanced(mid.left) && Balanced(mid.right) && Balanced(t.right)
            && Near(a, b) && Near(c, d) && Near(Max(a, b), Max(c, d)))
  {
    var turned := t.(left := RotateLeft(t.left, upd));
    RotateRightBalance(turned, upd);
    RefreshBalance(t.left.right.right, upd);
    MakeBalance(t.left.left, t.left.entry, t.left.right.left, upd);
  }

  lemma {:induction false} DoubleLeftBalance<E, A>(t: Tree<E, A>, upd: Update<E, A>)
    requires t.Branch? && t.right.Branch? && t.right.left.Branch?
    ensures var mid := t.right.left;
      var (r, a, b, c, d) := (RotateLeft(t.(right := RotateRight(t.right, upd)), upd),
                              Height(t.left), Height(mid.left), Height(mid.right), Height(t.right.right));
      && Height(r) == 1 + Max(1 + Max(a, b), 1 + Max(c, d))
      && (Balanced(r) <==>
            && Balanced(t.left) && Balanced(mid.left) && Balanced(mid.right) && Balanced(t.right.right)
            && Near(a, b) && Near(c, d) && Near(Max(a, b), Max(c, d)))
  {
    var turned := t.(right := RotateRight(t.right, upd));
    RotateLeftBalance(turned, upd);
    RefreshBalance(t.right.left.left, upd);
    MakeBalance(t.right.left.right, t.right.entry, t.right.right, upd);
  }

  lemma {:induction false} LeftHeavyRepair<E, A>(t: Tree<E, A>, upd: Update<E, A>)
    requires t.Branch? && DepthsExact(t) && RotationsSafe(t)
    requires Balanced(t.left) && Balanced(t.right) && Lean(t) == 2
    ensures Balanced(CheckAndBalance(t, upd)) <==> !DoubleRotationMisses(t)
    ensures t.left.Branch? && (Lean(t.left) != 0 ==> Height(CheckAndBalance(t, upd)) == Height(t.left))
  {
    ExactDepth(t.left);
    ExactDepth(t.right);
    ExactDepth(t.left.left);
    ExactDepth(t.left.right);
    if Lean(t.left) > 0 {
      RotateRightBalance(t, upd);
    } else {
      DoubleRightBalance(t, upd);
    }
  }

  lemma {:induction false} RightHeavyRepair<E, A>(t: Tree<E, A>, upd: Update<E, A>)
    requires t.Branch? && DepthsExact(t) && RotationsSafe(t)
    requires Balanced(t.left) && Balanced(t.right) && Lean(t) == -2
    ensures Balanced(CheckAndBalance(t, upd)) <==> !DoubleRotationMisses(t)
    ensures t.right.Branch? && (Lean(t.right) != 0 ==> Height(CheckAndBalance(t, upd)) == Height(t.right))
  {
    ExactDepth(t.left);
    ExactDepth(t.right);
    ExactDepth(t.right.left);
    ExactDepth(t.right.right);
    if Lean(t.right) < 0 {
      RotateLeftBalance(t, upd);
    } else {
      DoubleLeftBalance(t, upd);
    }
  }

  /** When does one rebalancing step restore the AVL condition? Exactly when the tall child is
  not an even one whose inner child leans outward. */
  lemma {:induction false} SettleBalances<E, A>(t: Tree<E, A>, upd: Update<E, A>)
    requires t.Branch? && DepthsExact(t.left) && DepthsExact(t.right)
    requires Balanced(t.left) && Balanced(t.right) && -2 <= Lean(t) <= 2
    ensures Balanced(Settle(t, upd)) <==> !DoubleRotationMisses(t)
    ensures -1 <= Lean(t) <= 1 ==> Settle(t, upd) == Refresh(t, upd)
    ensures Lean(t) == 2 ==> t.left.Branch? && (Lean(t.left) != 0 ==> Height(Settle(t, upd)) == Height(t.left))
    ensures Lean(t) == -2 ==> t.right.Branch? && (Lean(t.right) != 0 ==> Height(Settle(t, upd)) == Height(t.right))
  {
    var u := Refresh(t, upd);
    RefreshIsExact(t, upd);
    RefreshBalance(t, upd);
    ExactDepthsRotateSafely(u);
    ExactDepth(t.left);
    ExactDepth(t.right);
    if Lean(t) == 2 {
      LeftHeavyRepair(u, upd);
    } else if Lean(t) == -2 {
      RightHeavyRepair(u, upd);
    }
  }

  /** Insertion keeps the AVL condition: the subtree that grew is never even, so the shape the
  double rotation misses cannot arise. */
  lemma {:induction false} InsertBalanced<E, A>(t: Tree<E, A>, e: E, a: A, comp: (E, E) -> int, upd: Update<E, A>)
    requires DepthsExact(t) && Balanced(t)
    ensures var r := Insert(t, e, a, comp, upd);
      && Balanced(r) && Height(t) <= Height(r) <= Height(t) + 1
      && (t.Branch? && Height(r) == Height(t) + 1 ==> Lean(r) != 0)
  {
    if t.Branch? {
      if comp(t.entry, e) > 0 {
        InsertBalanced(t.left, e, a, comp, upd);
        SettleBalances(t.(left := Insert(t.left, e, a, comp, upd)), upd);
        ExactDepth(t.left);
        ExactDepth(t.right);
      } else {
        InsertBalanced(t.right, e, a, comp, upd);
        SettleBalances(t.(right := Insert(t.right, e, a, comp, upd)), upd);
        ExactDepth(t.left);
        ExactDepth(t.right);
      }
    }
  }

  // ----- cached values along the insertion path -----

  /** Every cache beside the path `comp` takes for `e` is exact; those on the path may be stale. */
  ghost predicate ExactOffPath<E, A>(t: Tree<E, A>, e: E, comp: (E, E) -> int, upd: Update<E, A>) {
    t.Branch? ==>
      if comp(t.entry, e) > 0
      then AugExact(t.right, upd) && ExactOffPath(t.left, e, comp, upd)
      else AugExact(t.left, upd) && ExactOffPath(t.right, e, comp, upd)
  }

  lemma {:induction false} ExactIsExactOffPath<E, A>(t: Tree<E, A>, e: E, comp: (E, E) -> int, upd: Update<E, A>)
    requires AugExact(t, upd)
    ensures ExactOffPath(t, e, comp, upd)
  {
    if t.Branch? {
      ExactIsExactOffPath(t.left, e, comp, upd);
      ExactIsExactOffPath(t.right, e, comp, upd);
    }
  }

  /** Insertion recomputes its whole path bottom-up, so staleness on the path does no harm. */
  lemma {:induction false} InsertRepairsPath<E, A>(t: Tree<E, A>, e: E, a: A, comp: (E, E) -> int, upd: Update<E, A>)
    requires DepthsExact(t) && ExactOffPath(t, e, comp, upd) && a == upd(e, None, None)
    ensures AugExact(Insert(t, e, a, comp, upd), upd)
  {
    if t.Branch? {
      if comp(t.entry, e) > 0 {
        InsertRepairsPath(t.left, e, a, comp, upd);
        SettleKeeps(t.(left := Insert(t.left, e, a, comp, upd)), upd);
      } else {
        InsertRepairsPath(t.right, e, a, comp, upd);
        SettleKeeps(t.(right := Insert(t.right, e, a, comp, upd)), upd);
      }
    }
  }

  /** The tree after a store to the payload of the entry at in-order position `j`: no cache moves. */
  function SetAt<E, A>(t: Tree<E, A>, j: int, x: E): (r: Tree<E, A>)
    requires 0 <= j < |InOrder(t)|
    ensures r.Branch?
  {
    var n := |InOrder(t.left)|;
    if j < n then t.(left := SetAt(t.left, j, x))
    else if j == n then t.(entry := x)
    else t.(right := SetAt(t.right, j - n - 1, x))
  }

  lemma {:induction false} SetAtKeeps<E, A>(t: Tree<E, A>, j: int, x: E)
    requires 0 <= j < |InOrder(t)|
    ensures InOrder(SetAt(t, j, x)) == InOrder(t)[j := x]
    ensures Height(SetAt(t, j, x)) == Height(t) && (Balanced(t) ==> Balanced(SetAt(t, j, x)))
    ensures DepthsExact(t) ==> DepthsExact(SetAt(t, j, x))
  {
    var n := |InOrder(t.left)|;
    if j < n {
      SetAtKeeps(t.left, j, x);
    } else if j > n {
      SetAtKeeps(t.right, j - n - 1, x);
    }
  }

  /** The path of an entry that goes right after position `j` passes through position `j`, so a
  store to that payload leaves nothing stale beside the path. */
  lemma {:induction false} StoreIsOnPath<E, A>(t: Tree<E, A>, j: int, x: E, e: E, comp: (E, E) -> int,
      upd: Update<E, A>)
    requires AugExact(t, upd) && 0 <= j < |InOrder(t)| && InsertPos(SetAt(t, j, x), e, comp) == j + 1
    ensures ExactOffPath(SetAt(t, j, x), e, comp, upd)
  {
    var u, n := SetAt(t, j, x), |InOrder(t.left)|;
    if j < n {
      SetAtKeeps(t.left, j, x);
      StoreIsOnPath(t.left, j, x, e, comp, upd);
    } else if j == n {
      ExactIsExactOffPath(t.right, e, comp, upd);
      ExactIsExactOffPath(t.left, e, comp, upd);
    } else {
      StoreIsOnPath(t.right, j - n - 1, x, e, comp, upd);
    }
  }
}
