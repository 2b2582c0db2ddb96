/**
 What one round of a fix-up loop does to the colours, on shapes. A round works at a position
 `(c, t)`: `t` is what hangs below the loop's node and `c` the path back to the root.
 */
module RbRepair {
  import opened RbShape
  import opened RbLayout
  import opened Powers

  ghost function Sib(c: Ctx): Tree
    requires !c.Top?
  {
    if c.InLeft? then c.r else c.l
  }

  /** The node at the end of the path, filled with `t` on the side of the hole and `s` on the other. */
  ghost function Join(c: Ctx, color: Color, t: Tree, s: Tree): Tree
    requires !c.Top?
  {
    if c.InLeft? then N(c.id, color, c.e, t, s) else N(c.id, color, c.e, s, t)
  }

  ghost function Up(c: Ctx, t: Tree): Tree
    requires !c.Top?
  {
    Join(c, c.color, t, Sib(c))
  }

  ghost function Blacken(t: Tree): Tree {
    if t.N? then t.(color := Black) else t
  }

  // ---------------------------------------------------------------- insertion

  /** Everything is in order, except that the red node `t` may have a red parent. */
  ghost predicate RedAt(c: Ctx, t: Tree) {
    t.N? && t.color == Red && Balanced(t) && CtxBalanced(c, Bh(t)) && RootBlack(c)
  }

  lemma RedLeaf(c: Ctx, t: Tree)
    requires Balanced(Plug(c, E)) && !IsRed(Plug(c, E))
    requires t.N? && t.color == Red && t.l.E? && t.r.E?
    ensures RedAt(c, t)
  {
    PlugBalanced(c, E);
    PlugRootBlack(c, E);
  }

  /** A red parent has a black parent in turn; what hangs off these two nodes is in order. */
  lemma RedParent(c: Ctx, t: Tree)
    requires RedAt(c, t) && CtxIsRed(c)
    ensures !c.up.Top? && c.up.color == Black
    ensures Balanced(Sib(c)) && Bh(Sib(c)) == Bh(t) && !IsRed(Sib(c))
    ensures Balanced(Sib(c.up)) && Bh(Sib(c.up)) == Bh(t)
    ensures RootBlack(c.up) && CtxBalanced(c.up, Bh(t))
    ensures RootBlack(c.up.up) && CtxBalanced(c.up.up, Bh(t) + 1)
  {
    assert CtxBalanced(c.up, Bh(t));
    assert RootBlack(c.up);
  }

  lemma RecolourUncle(c: Ctx, t: Tree)
    requires RedAt(c, t) && CtxIsRed(c) && !c.up.Top? && IsRed(Sib(c.up))
    ensures RedAt(c.up.up, Join(c.up, Red, Blacken(Up(c, t)), Blacken(Sib(c.up))))
  {
    RedParent(c, t);
    assert Balanced(Blacken(Up(c, t)));
    assert Balanced(Blacken(Sib(c.up)));
  }

  /** Inner grandchild: after the first rotation the position is again a red node below a red one. */
  lemma TurnLeft(c: Ctx, t: Tree)
    requires RedAt(c, t) && CtxIsRed(c) && c.InRight?
    ensures RotL(Up(c, t)) == N(t.id, Red, t.e, N(c.id, Red, c.e, c.l, t.l), t.r)
    ensures RedAt(InLeft(t.id, Red, t.e, t.r, c.up), N(c.id, Red, c.e, c.l, t.l))
  {
    RedParent(c, t);
  }

  lemma TurnRight(c: Ctx, t: Tree)
    requires RedAt(c, t) && CtxIsRed(c) && c.InLeft?
    ensures RotR(Up(c, t)) == N(t.id, Red, t.e, t.l, N(c.id, Red, c.e, t.r, c.r))
    ensures RedAt(InRight(t.id, Red, t.e, t.l, c.up), N(c.id, Red, c.e, t.r, c.r))
  {
    RedParent(c, t);
  }

  /** Outer grandchild: the rotation at the grandparent leaves the red node below a black one. */
  lemma LiftRight(c: Ctx, t: Tree)
    requires RedAt(c, t) && CtxIsRed(c) && c.InLeft? && c.up.InLeft? && !IsRed(c.up.r)
    ensures RedAt(InLeft(c.id, Black, c.e, N(c.up.id, Red, c.up.e, c.r, c.up.r), c.up.up), t)
  {
    RedParent(c, t);
  }

  lemma LiftLeft(c: Ctx, t: Tree)
    requires RedAt(c, t) && CtxIsRed(c) && c.InRight? && c.up.InRight? && !IsRed(c.up.l)
    ensures RedAt(InRight(c.id, Black, c.e, N(c.up.id, Red, c.up.e, c.up.l, c.l), c.up.up), t)
  {
    RedParent(c, t);
  }

  lemma {:induction false} PlugNode(c: Ctx, t: Tree)
    ensures Plug(c, t).N? <==> t.N? || !c.Top?
    decreases c
  {
    if !c.Top? {
      PlugNode(c.up, Up(c, t));
    }
  }

  /** Below a black parent, or at the root and painted black, the red node does no harm. */
  lemma RedDone(c: Ctx, t: Tree)
    requires RedAt(c, t) && !CtxIsRed(c)
    ensures Plug(c, t).N? && Balanced(Blacken(Plug(c, t)))
  {
    PlugBalanced(c, t);
    PlugRootBlack(c, t);
    PlugNode(c, t);
  }

  // ---------------------------------------------------------------- deletion

  /**
   Everything is in order, except that `t` is one black node short of what its surroundings
   ask for, and that a red `t` may have red children.
   */
  ghost predicate ShortAt(c: Ctx, t: Tree) {
    Balanced(Blacken(t)) && (c.Top? || (CtxBalanced(c, Bh(t) + 1) && RootBlack(c)))
  }

  /** What hangs off the path of a short subtree is in order, and a sibling is there. */
  lemma ShortParent(c: Ctx, t: Tree)
    requires ShortAt(c, t) && !c.Top?
    ensures Sib(c).N? && Balanced(Sib(c)) && Bh(Sib(c)) == Bh(t) + 1
    ensures var w := Sib(c);
      && Balanced(w.l) && Balanced(w.r) && Bh(w.l) == Bh(w.r) == Bh(t) + 1 - Weight(w.color)
      && (IsRed(w) ==> c.color == Black && w.l.N? && w.r.N? && !IsRed(w.l) && !IsRed(w.r))
      && (IsRed(w.l) ==>
              Balanced(w.l.l) && Balanced(w.l.r) && Bh(w.l.l) == Bh(w.l.r) == Bh(w.l) && !IsRed(w.l.l) && !IsRed(w.l.r))
      && (IsRed(w.r) ==>
              Balanced(w.r.l) && Balanced(w.r.r) && Bh(w.r.l) == Bh(w.r.r) == Bh(w.r) && !IsRed(w.r.l) && !IsRed(w.r.r))
    ensures CtxBalanced(c.up, Bh(t) + 1 + Weight(c.color)) && RootBlack(c.up)
    ensures c.color == Red ==> !CtxIsRed(c.up) && !c.up.Top?
  {
  }

  /** A red sibling: one rotation gives the node a red parent and a black sibling. */
  lemma RedSiblingLeft(c: Ctx, t: Tree)
    requires ShortAt(c, t) && c.InLeft? && IsRed(c.r) && c.r.l.N? && c.r.r.N?
    ensures ShortAt(InLeft(c.id, Red, c.e, c.r.l, InLeft(c.r.id, Black, c.r.e, c.r.r, c.up)), t)
    ensures !IsRed(c.r.l)
  {
    ShortParent(c, t);
  }

  lemma RedSiblingRight(c: Ctx, t: Tree)
    requires ShortAt(c, t) && c.InRight? && IsRed(c.l) && c.l.l.N? && c.l.r.N?
    ensures ShortAt(InRight(c.id, Red, c.e, c.l.r, InRight(c.l.id, Black, c.l.e, c.l.l, c.up)), t)
    ensures !IsRed(c.l.r)
  {
    ShortParent(c, t);
  }

  /** A black sibling with black children turns red, and the shortage moves up. */
  lemma PushUp(c: Ctx, t: Tree)
    requires ShortAt(c, t) && !c.Top? && !IsRed(t)
    requires Sib(c).N? && !IsRed(Sib(c)) && !IsRed(Sib(c).l) && !IsRed(Sib(c).r)
    ensures ShortAt(c.up, Join(c, c.color, t, Sib(c).(color := Red)))
  {
    ShortParent(c, t);
  }

  /** A red near nephew is turned into a red far nephew. */
  lemma NearNephewLeft(c: Ctx, t: Tree)
    requires ShortAt(c, t) && c.InLeft? && c.r.N? && !IsRed(c.r) && IsRed(c.r.l) && !IsRed(c.r.r)
    ensures var w := c.r;
      ShortAt(c.(r := N(w.l.id, Black, w.l.e, w.l.l, N(w.id, Red, w.e, w.l.r, w.r))), t)
  {
    ShortParent(c, t);
    var w := c.r;
    var inner := N(w.id, Red, w.e, w.l.r, w.r);
    assert Balanced(inner) && Bh(inner) == Bh(t);
    assert Balanced(N(w.l.id, Black, w.l.e, w.l.l, inner));
  }

  lemma NearNephewRight(c: Ctx, t: Tree)
    requires ShortAt(c, t) && c.InRight? && c.l.N? && !IsRed(c.l) && IsRed(c.l.r) && !IsRed(c.l.l)
    ensures var w := c.l;
      ShortAt(c.(l := N(w.r.id, Black, w.r.e, N(w.id, Red, w.e, w.l, w.r.l), w.r.r)), t)
  {
    ShortParent(c, t);
    var w := c.l;
    var inner := N(w.id, Red, w.e, w.l, w.r.l);
    assert Balanced(inner) && Bh(inner) == Bh(t);
    assert Balanced(N(w.r.id, Black, w.r.e, inner, w.r.r));
  }

  /** A red far nephew pays for the missing black node. */
  lemma FarNephewLeft(c: Ctx, t: Tree)
    requires ShortAt(c, t) && c.InLeft? && !IsRed(t) && c.r.N? && !IsRed(c.r) && IsRed(c.r.r)
    ensures var w := c.r;
      var s := N(w.id, c.color, w.e, N(c.id, Black, c.e, t, w.l), Blacken(w.r));
      Balanced(Plug(c.up, s)) && !IsRed(Plug(c.up, s))
  {
    ShortParent(c, t);
    var w := c.r;
    var near, far := N(c.id, Black, c.e, t, w.l), Blacken(w.r);
    assert Balanced(far) && Bh(far) == Bh(t) + 1;
    assert Balanced(near) && Bh(near) == Bh(t) + 1;
    var s := N(w.id, c.color, w.e, near, far);
    assert Balanced(s) && Bh(s) == Bh(t) + 1 + Weight(c.color);
    PlugBalanced(c.up, s);
    PlugRootBlack(c.up, s);
  }

  lemma FarNephewRight(c: Ctx, t: Tree)
    requires ShortAt(c, t) && c.InRight? && !IsRed(t) && c.l.N? && !IsRed(c.l) && IsRed(c.l.l)
    ensures var w := c.l;
      var s := N(w.id, c.color, w.e, Blacken(w.l), N(c.id, Black, c.e, w.r, t));
      Balanced(Plug(c.up, s)) && !IsRed(Plug(c.up, s))
  {
    ShortParent(c, t);
    var w := c.l;
    var far, near := Blacken(w.l), N(c.id, Black, c.e, w.r, t);
    assert Balanced(far) && Bh(far) == Bh(t) + 1;
    assert Balanced(near) && Bh(near) == Bh(t) + 1;
    var s := N(w.id, c.color, w.e, far, near);
    assert Balanced(s) && Bh(s) == Bh(t) + 1 + Weight(c.color);
    PlugBalanced(c.up, s);
    PlugRootBlack(c.up, s);
  }

  /** At the root, or on a red node, painting black settles the shortage. */
  lemma ShortDone(c: Ctx, t: Tree)
    requires ShortAt(c, t) && (c.Top? || IsRed(t))
    ensures Balanced(Plug(c, Blacken(t))) && !IsRed(Plug(c, Blacken(t)))
  {
    PlugBalanced(c, Blacken(t));
    PlugRootBlack(c, Blacken(t));
  }

  /** Cutting out a black node leaves its only child, or the empty tree, one black node short. */
  lemma SpliceShort(c: Ctx, t: Tree)
    requires Balanced(Plug(c, t)) && !IsRed(Plug(c, t)) && t.N? && (t.l.E? || t.r.E?) && t.color == Black
    ensures ShortAt(c, OnlyChild(t))
  {
    PlugBalanced(c, t);
    PlugRootBlack(c, t);
  }

  /** Cutting out a red node does no harm. */
  lemma SpliceRed(c: Ctx, t: Tree)
    requires Balanced(Plug(c, t)) && !IsRed(Plug(c, t)) && t.N? && (t.l.E? || t.r.E?) && t.color == Red
    ensures CtxBalanced(c, Bh(OnlyChild(t))) && Balanced(OnlyChild(t)) && !IsRed(OnlyChild(t))
    ensures RootBlack(c) && !c.Top?
  {
    PlugBalanced(c, t);
    PlugRootBlack(c, t);
  }

  lemma SpliceRedDone(c: Ctx, t: Tree)
    requires CtxBalanced(c, Bh(t)) && Balanced(t) && !IsRed(t) && RootBlack(c)
    ensures Balanced(Plug(c, t)) && !IsRed(Plug(c, t))
  {
    PlugBalanced(c, t);
    PlugRootBlack(c, t);
  }

  /** What is left once the node `z` of `t` at `c`, with at most one child, is cut out. */
  lemma CutSelf(c: Ctx, t: Tree)
    requires Sorted(Entries(Plug(c, t))) && Balanced(Plug(c, t)) && !IsRed(Plug(c, t)) && t.N? && (t.l.E? || t.r.E?)
    ensures var s := OnlyChild(t); Removed(Plug(c, t), t.e, t.color, c, s)
  {
    SpliceEntries(c, t);
    OneBinding(c, t);
    if t.color == Black {
      SpliceShort(c, t);
    } else {
      SpliceRed(c, t);
      SpliceRedDone(c, OnlyChild(t));
    }
  }

  /** `Plug(c, s)` is the tree `whole` without `e`, short of a black node at `c` if `color` was black. */
  ghost predicate Removed(whole: Tree, e: Entry, color: Color, c: Ctx, s: Tree) {
    && Sorted(Entries(Plug(c, s))) && Bindings(Plug(c, s)) == Bindings(whole) - {e}
    && (forall f :: f in Bindings(Plug(c, s)) ==> f.key != e.key)
    && (color == Black ==> ShortAt(c, s))
    && (color == Red ==> Balanced(Plug(c, s)) && !IsRed(Plug(c, s)))
  }

  /** The way to the successor of the node `t` at `c`, with entry `e` on that node. */
  ghost function Below(c: Ctx, t: Tree, e: Entry, inner: Ctx): Ctx
    requires t.N?
  {
    Comp(inner, InRight(t.id, t.color, e, t.l, c))
  }

  lemma BelowPlug(c: Ctx, t: Tree, e: Entry, inner: Ctx, s: Tree)
    requires t.N?
    ensures Plug(Below(c, t, e, inner), s) == Plug(c, N(t.id, t.color, e, t.l, Plug(inner, s)))
  {
    PlugComp(inner, InRight(t.id, t.color, e, t.l, c), s);
  }

  /** What is left once the successor is cut out and its entry moved to the node `t` at `c`. */
  lemma CutNext(c: Ctx, t: Tree, inner: Ctx, y: Tree)
    requires Sorted(Entries(Plug(c, t))) && Balanced(Plug(c, t)) && !IsRed(Plug(c, t)) && t.N?
    requires y.N? && y.l.E? && t.r == Plug(inner, y) && Before(inner) == []
    ensures Removed(Plug(c, t), t.e, y.color, Below(c, t, y.e, inner), y.r)
  {
    BelowPlug(c, t, y.e, inner, y.r);
    ReplaceEntries(c, t, inner, y);
    OneBinding(c, t);
    NextColours(c, t, inner, y);
  }

  lemma NextColours(c: Ctx, t: Tree, inner: Ctx, y: Tree)
    requires Balanced(Plug(c, t)) && !IsRed(Plug(c, t)) && t.N?
    requires y.N? && y.l.E? && t.r == Plug(inner, y)
    ensures var c2 := Below(c, t, y.e, inner);
      && (y.color == Black ==> ShortAt(c2, y.r))
      && (y.color == Red ==> Balanced(Plug(c2, y.r)) && !IsRed(Plug(c2, y.r)))
  {
    var o1, o2 := InRight(t.id, t.color, t.e, t.l, c), InRight(t.id, t.color, y.e, t.l, c);
    var c1, c2 := Comp(inner, o1), Comp(inner, o2);
    BelowPlug(c, t, t.e, inner, y);
    assert Plug(c1, y) == Plug(c, t);
    hide Plug, Comp, Balanced, CtxBalanced, RootBlack, Bh;
    if y.color == Black {
      SpliceShort(c1, y);
      CompBalanced(inner, o1, o2, Bh(y.r) + 1);
      CompTop(inner, o1);
      CompTop(inner, o2);
    } else {
      SpliceRed(c1, y);
      CompBalanced(inner, o1, o2, Bh(y.r));
      SpliceRedDone(c2, y.r);
    }
  }

  lemma CompTop(inner: Ctx, outer: Ctx)
    requires !outer.Top?
    ensures !Comp(inner, outer).Top?
    ensures Comp(inner, outer).id == if inner.Top? then outer.id else inner.id
  {
  }

  lemma OneBinding(c: Ctx, t: Tree)
    requires Sorted(Entries(Plug(c, t))) && t.N?
    ensures forall f :: f in Bindings(Plug(c, t)) && f.key == t.e.key ==> f == t.e
  {
    PlugEntries(c, t);
    AroundEntry(Before(c), Entries(t.l), t.e, Entries(t.r), After(c));
    SortedTake(Before(c) + Entries(t.l), t.e, Entries(t.r) + After(c));
  }

  // ---------------------------------------------------------------- height

  /** A tree of black height h is at most twice as high, and has at least 2^h - 1 nodes. */
  lemma {:induction false} BlackHeight(t: Tree)
    requires Balanced(t)
    ensures Height(t) <= 2 * Bh(t) + (if IsRed(t) then 1 else 0)
    ensures Pow2(Bh(t)) <= Size(t) + 1
  {
    if t.N? {
      BlackHeight(t.l);
      BlackHeight(t.r);
    }
  }

  lemma Square(b: nat, n: nat)
    requires b <= n
    ensures b * b <= n * n
  {
  }

  /** The height is at most 2 * log2(n + 1). */
  lemma LogHeight(t: Tree)
    requires Balanced(t) && !IsRed(t)
    ensures Pow2(Height(t)) <= (Size(t) + 1) * (Size(t) + 1)
  {
    BlackHeight(t);
    hide Height, Bh, Balanced, Size;
    var b, n := Pow2(Bh(t)), Size(t) + 1;
    Pow2Mono(Height(t), Bh(t) + Bh(t));
    Pow2Add(Bh(t), Bh(t));
    Square(b, n);
  }

  lemma {:induction false} SizeIsIds(t: Tree)
    requires Distinct(t)
    ensures |Ids(t)| == Size(t)
  {
    if t.N? {
      SizeIsIds(t.l);
      SizeIsIds(t.r);
      assert |Ids(t.l) + Ids(t.r)| == |Ids(t.l)| + |Ids(t.r)|;
      assert |{t.id} + (Ids(t.l) + Ids(t.r))| == 1 + |Ids(t.l) + Ids(t.r)|;
      assert Ids(t) == {t.id} + (Ids(t.l) + Ids(t.r));
    }
  }
}
