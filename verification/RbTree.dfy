/**
 The pointer-based red-black tree of rbtree/main.cpp: nodes with parent links and one
 shared sentinel `nil`. The ghost field `tree` is the shape of the linked structure.
 */
module RbTree {
  import opened RbShape
  import opened RbLayout
  import opened RbRepair
  import opened Powers

  class RbTree {
    var root: Node
    const nil: Node
    ghost var tree: Tree

    constructor ()
      ensures Valid() && tree == E && fresh(nil)
    {
      var n := new Node(0, 0);
      nil, root, tree := n, n, E;
    }

    // -------------------------------------------------------------- invariant

    ghost predicate Matches(m: map<Node, Cell>)
      reads m.Keys
    {
      forall n :: n in m ==> Stored(n) == m[n]
    }

    /** The links are exactly those of `tree`. */
    ghost predicate Linked()
      reads this, Ids(tree)
    {
      && nil !in Ids(tree) && Distinct(tree)
      && root == Ptr(tree, nil) && Matches(Cells(tree, nil))
    }

    ghost predicate Valid()
      reads this, Ids(tree), nil
    {
      && Linked() && nil.color == Black
      && Sorted(Entries(tree)) && Balanced(tree) && !IsRed(tree)
    }

    ghost function Contents(): set<Entry>
      reads this
    {
      Bindings(tree)
    }

    /** What the fields around a position hold. */
    lemma See(c: Ctx, t: Tree)
      requires Linked() && tree == Plug(c, t)
      ensures t.N? ==>
        && t.id != nil && t.id in Ids(tree)
        && Stored(t.id) == Cell(t.color, t.e, Ptr(t.l, nil), Ptr(t.r, nil), CtxPtr(c, nil))
      ensures t.N? && t.l.N? ==>
        && t.l.id != nil && t.l.id in Ids(tree)
        && Stored(t.l.id) == Cell(t.l.color, t.l.e, Ptr(t.l.l, nil), Ptr(t.l.r, nil), t.id)
      ensures t.N? && t.r.N? ==>
        && t.r.id != nil && t.r.id in Ids(tree)
        && Stored(t.r.id) == Cell(t.r.color, t.r.e, Ptr(t.r.l, nil), Ptr(t.r.r, nil), t.id)
      ensures t.N? && t.l.N? && t.r.N? ==> t.l.id != t.r.id
      ensures !c.Top? ==> c.id != nil && c.id in Ids(tree) && CtxPtr(c, nil) != nil
      ensures root == Ptr(t, nil) <==> c.Top?
      ensures nil !in Ids(tree)
    {
      PlugCells(c, t, nil);
      PlugIds(c, t);
      PlugPtr(c, t, nil);
      if t.N? {
        SubCell(t, CtxPtr(c, nil), nil);
      }
      if !c.Top? {
        assert c.id in CtxIds(c);
        RootAway(c, t);
      }
    }

    /** What the node above a position holds. */
    lemma SeeUp(c: Ctx, t: Tree)
      requires Linked() && tree == Plug(c, t) && !c.Top?
      ensures tree == Plug(c.up, Up(c, t))
      ensures c.id != nil && c.id in Ids(tree) && c.id.color == c.color && c.id.parent == CtxPtr(c.up, nil)
      ensures c.InLeft? ==> c.id.left == Ptr(t, nil) && c.id.right == Ptr(c.r, nil)
      ensures c.InRight? ==> c.id.left == Ptr(c.l, nil) && c.id.right == Ptr(t, nil)
      ensures t.N? || Sib(c).N? ==> c.id.left != c.id.right
      ensures var w := Sib(c); w.N? ==>
        && w.id != nil && w.id in Ids(tree) && w.id.color == w.color && w.id.parent == c.id
        && w.id.left == Ptr(w.l, nil) && w.id.right == Ptr(w.r, nil)
    {
      See(c.up, Up(c, t));
    }

    lemma {:induction false} RootAway(c: Ctx, t: Tree)
      requires CtxDistinct(c) && CtxIds(c) !! Ids(t) && !c.Top? && nil !in CtxIds(c)
      ensures Ptr(Plug(c, t), nil) in CtxIds(c)
      decreases c
    {
      if !c.up.Top? {
        RootAway(c.up, Up(c, t));
      }
    }

    // -------------------------------------------------------------- single writes and rotations

    /** The node itself unless it is the sentinel: what a write through a checked link may touch. */
    ghost function Real(n: Node): set<Node> {
      if n == nil then {} else {n}
    }

    /** Assigns a colour; the shape changes at that node alone. */
    method Paint(n: Node, color: Color, ghost c: Ctx, ghost t: Tree)
      requires Linked() && tree == Plug(c, t) && t.N? && t.id == n
      modifies this`tree, n`color
      ensures Linked() && tree == Plug(c, t.(color := color))
      ensures Ids(tree) == old(Ids(tree)) && Entries(tree) == old(Entries(tree))
    {
      hide Cells, CellOf, Plug, Ids, Distinct, Matches, Entries;
      RestorePlug(c, t, color, t.e, nil);
      PlugPtr(c, t, nil);
      PlugPtr(c, t.(color := color), nil);
      PlugEntries(c, t);
      PlugEntries(c, t.(color := color));
      SameEntries(t, color);
      PaintCell(n, color, Cells(tree, nil), Plug(c, t.(color := color)));
    }

    method PaintCell(n: Node, color: Color, ghost m: map<Node, Cell>, ghost newTree: Tree)
      requires Matches(m) && n in m
      modifies this`tree, n`color
      ensures Matches(m[n := m[n].(color := color)]) && tree == newTree
    {
      n.color := color;
      tree := newTree;
    }

    lemma SameEntries(t: Tree, color: Color)
      requires t.N?
      ensures Entries(t.(color := color)) == Entries(t)
    {
    }

    method LeftRotate(x: Node)
      requires x != nil && x.right != nil && x.right != x
      requires x.right.left != x && x.right.left != x.right
      requires x.parent != x && x.parent != x.right && (x.parent == nil || x.parent != x.right.left)
      modifies this`root, {x, x.right} + Real(x.right.left) + Real(x.parent)
      ensures var y, b, p := old(x.right), old(x.right.left), old(x.parent);
        && Stored(x) == old(Stored(x)).(right := b, parent := y)
        && Stored(y) == old(Stored(y)).(left := x, parent := p)
        && (b != nil ==> Stored(b) == old(Stored(b)).(parent := x))
        && (p != nil ==> Stored(p) == if old(p.left) == x then old(Stored(p)).(left := y)
           else old(Stored(p)).(right := y))
        && root == (if p == nil then y else old(root))
    {
      var y := x.right;
      x.right := y.left;
      if y.left != nil {
        y.left.parent := x;
      }
      y.parent := x.parent;
      if x.parent == nil {
        root := y;
      } else if x == x.parent.left {
        x.parent.left := y;
      } else {
        x.parent.right := y;
      }
      y.left := x;
      x.parent := y;
    }

    method RotateLeftCells(x: Node, ghost m: map<Node, Cell>, ghost newTree: Tree)
      requires Matches(m) && CanRotL(m, x, nil)
      modifies this, m.Keys
      ensures Matches(RotLCells(m, x, nil)) && tree == newTree
      ensures root == if m[x].parent == nil then m[x].right else old(root)
    {
      assert Stored(x) == m[x] && Stored(x.right) == m[x.right];
      ghost var y, b, p := m[x].right, m[m[x].right].left, m[x].parent;
      assert b != nil ==> Stored(b) == m[b];
      assert p != nil ==> Stored(p) == m[p];
      LeftRotate(x);
      tree := newTree;
      ghost var m2 := RotLCells(m, x, nil);
      assert Stored(x) == m2[x] && Stored(y) == m2[y];
      assert b != nil ==> Stored(b) == m2[b];
      assert p != nil ==> Stored(p) == m2[p];
      forall n | n in m && n !in {x, y, b, p}
        ensures Stored(n) == m2[n]
      {
        assert unchanged(n);
      }
    }

    /** A left rotation anywhere in the tree: the shape turns, the order of entries stays. */
    method RotateLeftAt(x: Node, ghost c: Ctx, ghost t: Tree)
      requires Linked() && tree == Plug(c, t)
      requires t.N? && t.id == x && t.r.N?
      modifies this, Ids(tree)
      ensures Linked() && tree == Plug(c, RotL(t))
      ensures Ids(tree) == old(Ids(tree)) && Entries(tree) == old(Entries(tree))
    {
      hide Cells, CellOf, RotLCells, CanRotL, Plug, Ids, Distinct, Matches, Entries;
      RotLFits(c, t, nil);
      RotLIds(c, t);
      RotLPlug(c, t, nil);
      RotLEntries(c, t);
      PlugPtr(c, t, nil);
      PlugPtr(c, RotL(t), nil);
      RotateLeftCells(x, Cells(tree, nil), Plug(c, RotL(t)));
    }

    method RightRotate(y: Node)
      requires y != nil && y.left != nil && y.left != y
      requires y.left.right != y && y.left.right != y.left
      requires y.parent != y && y.parent != y.left && (y.parent == nil || y.parent != y.left.right)
      modifies this`root, {y, y.left} + Real(y.left.right) + Real(y.parent)
      ensures var x, b, p := old(y.left), old(y.left.right), old(y.parent);
        && Stored(y) == old(Stored(y)).(left := b, parent := x)
        && Stored(x) == old(Stored(x)).(right := y, parent := p)
        && (b != nil ==> Stored(b) == old(Stored(b)).(parent := y))
        && (p != nil ==> Stored(p) == if old(p.right) == y then old(Stored(p)).(right := x)
           else old(Stored(p)).(left := x))
        && root == (if p == nil then x else old(root))
    {
      var x := y.left;
      y.left := x.right;
      if x.right != nil {
        x.right.parent := y;
      }
      x.parent := y.parent;
      if y.parent == nil {
        root := x;
      } else if y == y.parent.right {
        y.parent.right := x;
      } else {
        y.parent.left := x;
      }
      x.right := y;
      y.parent := x;
    }

    method RotateRightCells(y: Node, ghost m: map<Node, Cell>, ghost newTree: Tree)
      requires Matches(m) && CanRotR(m, y, nil)
      modifies this, m.Keys
      ensures Matches(RotRCells(m, y, nil)) && tree == newTree
      ensures root == if m[y].parent == nil then m[y].left else old(root)
    {
      assert Stored(y) == m[y] && Stored(y.left) == m[y.left];
      ghost var x, b, p := m[y].left, m[m[y].left].right, m[y].parent;
      assert b != nil ==> Stored(b) == m[b];
      assert p != nil ==> Stored(p) == m[p];
      RightRotate(y);
      tree := newTree;
      ghost var m2 := RotRCells(m, y, nil);
      assert Stored(x) == m2[x] && Stored(y) == m2[y];
      assert b != nil ==> Stored(b) == m2[b];
      assert p != nil ==> Stored(p) == m2[p];
      forall n | n in m && n !in {x, y, b, p}
        ensures Stored(n) == m2[n]
      {
        assert unchanged(n);
      }
    }

    method RotateRightAt(y: Node, ghost c: Ctx, ghost t: Tree)
      requires Linked() && tree == Plug(c, t)
      requires t.N? && t.id == y && t.l.N?
      modifies this, Ids(tree)
      ensures Linked() && tree == Plug(c, RotR(t))
      ensures Ids(tree) == old(Ids(tree)) && Entries(tree) == old(Entries(tree))
    {
      hide Cells, CellOf, RotRCells, CanRotR, Plug, Ids, Distinct, Matches, Entries;
      RotRFits(c, t, nil);
      RotRIds(c, t);
      RotRPlug(c, t, nil);
      RotREntries(c, t);
      PlugPtr(c, t, nil);
      PlugPtr(c, RotR(t), nil);
      RotateRightCells(y, Cells(tree, nil), Plug(c, RotR(t)));
    }

    // -------------------------------------------------------------- insertion

    lemma DepthUp(c: Ctx)
      requires !c.Top?
      ensures Depth(c) == 1 + Depth(c.up)
    {
    }

    /** A red uncle: parent and uncle turn black, the grandparent red, and the loop goes on there. */
    method RecolourRound(z0: Node, y: Node, ghost c0: Ctx, ghost t0: Tree)
      returns (z: Node, ghost c: Ctx, ghost t: Tree)
      requires Linked() && nil.color == Black && tree == Plug(c0, t0)
      requires RedAt(c0, t0) && t0.id == z0 && CtxIsRed(c0)
      requires !c0.up.Top? && IsRed(Sib(c0.up)) && y == Sib(c0.up).id
      modifies this, Ids(tree)
      ensures Linked() && tree == Plug(c, t) && RedAt(c, t) && t.id == z && Depth(c) < Depth(c0)
      ensures Ids(tree) == old(Ids(tree)) && Entries(tree) == old(Entries(tree))
    {
      hide Linked, Balanced, CtxBalanced, Entries, Ids, Distinct, CtxDistinct, CtxIds, Bh, RootBlack;
      z := z0;
      ghost var g := c0.up;
      See(g, Up(c0, t0));
      See(g.up, Up(g, Up(c0, t0)));
      RecolourUncle(c0, t0);
      ghost var p, u := Blacken(Up(c0, t0)), Blacken(Sib(g));
      Paint(z.parent, Black, g, Up(c0, t0));
      Paint(y, Black, if g.InLeft? then InRight(g.id, g.color, g.e, p, g.up)
        else InLeft(g.id, g.color, g.e, p, g.up), Sib(g));
      Paint(z.parent.parent, Red, g.up, Join(g, g.color, p, u));
      z := z.parent.parent;
      c, t := g.up, Join(g, Red, p, u);
    }

    /** The rotations of one round when the parent is a left child and the uncle is black. */
    method RotateRoundInLeft(z0: Node, ghost c0: Ctx, ghost t0: Tree)
      returns (z: Node, ghost c: Ctx, ghost t: Tree)
      requires Linked() && nil.color == Black && tree == Plug(c0, t0)
      requires RedAt(c0, t0) && t0.id == z0 && CtxIsRed(c0)
      requires !c0.up.Top? && c0.up.InLeft? && !IsRed(c0.up.r)
      modifies this, Ids(tree)
      ensures Linked() && tree == Plug(c, t) && RedAt(c, t) && t.id == z && Depth(c) < Depth(c0)
      ensures Ids(tree) == old(Ids(tree)) && Entries(tree) == old(Entries(tree))
    {
      hide Linked, Balanced, CtxBalanced, Entries, Ids, Distinct, CtxDistinct, CtxIds, Bh, RootBlack;
      z, c, t := z0, c0, t0;
      ghost var g := c.up;
      See(g, Up(c, t));
      assert Depth(c) == 2 + Depth(g.up);
      hide Depth;
      if z == z.parent.right {
        assert c.InRight?;
        z := z.parent;
        TurnLeft(c, t);
        RotateLeftAt(z, g, Up(c, t));
        c, t := InLeft(t.id, Red, t.e, t.r, g), N(c.id, Red, c.e, c.l, t.l);
      }
      assert c.InLeft?;
      See(g, Up(c, t));
      See(g.up, Up(g, Up(c, t)));
      LiftRight(c, t);
      ghost var p := Blacken(Up(c, t));
      Paint(z.parent, Black, g, Up(c, t));
      Paint(z.parent.parent, Red, g.up, Join(g, g.color, p, g.r));
      RotateRightAt(z.parent.parent, g.up, Join(g, Red, p, g.r));
      c := InLeft(c.id, Black, c.e, N(g.id, Red, g.e, c.r, g.r), g.up);
      DepthUp(c);
    }

    /** The rotations of one round when the parent is a right child and the uncle is black. */
    method RotateRoundInRight(z0: Node, ghost c0: Ctx, ghost t0: Tree)
      returns (z: Node, ghost c: Ctx, ghost t: Tree)
      requires Linked() && nil.color == Black && tree == Plug(c0, t0)
      requires RedAt(c0, t0) && t0.id == z0 && CtxIsRed(c0)
      requires !c0.up.Top? && c0.up.InRight? && !IsRed(c0.up.l)
      modifies this, Ids(tree)
      ensures Linked() && tree == Plug(c, t) && RedAt(c, t) && t.id == z && Depth(c) < Depth(c0)
      ensures Ids(tree) == old(Ids(tree)) && Entries(tree) == old(Entries(tree))
    {
      hide Linked, Balanced, CtxBalanced, Entries, Ids, Distinct, CtxDistinct, CtxIds, Bh, RootBlack;
      z, c, t := z0, c0, t0;
      ghost var g := c.up;
      See(g, Up(c, t));
      assert Depth(c) == 2 + Depth(g.up);
      hide Depth;
      if z == z.parent.left {
        assert c.InLeft?;
        z := z.parent;
        TurnRight(c, t);
        RotateRightAt(z, g, Up(c, t));
        c, t := InRight(t.id, Red, t.e, t.l, g), N(c.id, Red, c.e, t.r, c.r);
      }
      assert c.InRight?;
      See(g, Up(c, t));
      See(g.up, Up(g, Up(c, t)));
      LiftLeft(c, t);
      ghost var p := Blacken(Up(c, t));
      Paint(z.parent, Black, g, Up(c, t));
      Paint(z.parent.parent, Red, g.up, Join(g, g.color, p, g.l));
      RotateLeftAt(z.parent.parent, g.up, Join(g, Red, p, g.l));
      c := InRight(c.id, Black, c.e, N(g.id, Red, g.e, g.l, c.l), g.up);
      DepthUp(c);
    }

    /** One round of the loop; `y` is the uncle. */
    method InsertRound(z0: Node, y: Node, ghost c0: Ctx, ghost t0: Tree)
      returns (z: Node, ghost c: Ctx, ghost t: Tree)
      requires Linked() && nil.color == Black && tree == Plug(c0, t0)
      requires RedAt(c0, t0) && t0.id == z0 && CtxIsRed(c0) && !c0.up.Top? && y == Ptr(Sib(c0.up), nil)
      modifies this, Ids(tree)
      ensures Linked() && tree == Plug(c, t) && RedAt(c, t) && t.id == z && Depth(c) < Depth(c0)
      ensures Ids(tree) == old(Ids(tree)) && Entries(tree) == old(Entries(tree))
    {
      assert t0.N?;
      hide Linked, Balanced, CtxBalanced, Entries, Ids, Distinct, CtxDistinct;
      hide CtxIds, Bh, RootBlack, Plug, Depth, RedAt;
      See(c0, t0);
      SeeUp(c0, t0);
      SeeUp(c0.up, Up(c0, t0));
      assert Up(c0, t0).N? && Up(c0, t0).id == c0.id;
      if y.color == Red {
        z, c, t := RecolourRound(z0, y, c0, t0);
      } else if z0.parent == z0.parent.parent.left {
        z, c, t := RotateRoundInLeft(z0, c0, t0);
      } else {
        z, c, t := RotateRoundInRight(z0, c0, t0);
      }
    }

    method InsertFixup(z0: Node, ghost c0: Ctx, ghost t0: Tree)
      requires Linked() && nil.color == Black && tree == Plug(c0, t0)
      requires RedAt(c0, t0) && t0.id == z0
      modifies this, Ids(tree)
      ensures Linked() && Balanced(tree) && !IsRed(tree) && Contents() == old(Contents())
      ensures Ids(tree) == old(Ids(tree)) && Entries(tree) == old(Entries(tree))
    {
      hide Linked, Balanced, CtxBalanced, Entries, Ids, Distinct, CtxDistinct, CtxIds, Bh, RootBlack, Plug, Depth;
      var z := z0;
      ghost var c, t := c0, t0;
      See(c, t);
      while z.parent.color == Red
        invariant Linked() && tree == Plug(c, t) && RedAt(c, t)
        invariant z == t.id && z.parent == CtxPtr(c, nil)
        invariant nil !in Ids(tree) && nil.color == Black
        invariant Ids(tree) == old(Ids(tree)) && Entries(tree) == old(Entries(tree))
        decreases Depth(c)
      {
        SeeUp(c, t);
        RedParent(c, t);
        SeeUp(c.up, Up(c, t));
        hide RedAt, Up;
        if z.parent == z.parent.parent.left {
          z, c, t := InsertRound(z, z.parent.parent.right, c, t);
        } else {
          z, c, t := InsertRound(z, z.parent.parent.left, c, t);
        }
        See(c, t);
      }
      if !c.Top? {
        SeeUp(c, t);
      }
      RedDone(c, t);
      PlugTop(tree);
      See(Top, tree);
      Paint(root, Black, Top, tree);
    }

    lemma PlugTop(t: Tree)
      ensures Plug(Top, t) == t && Plug(Top, Blacken(t)) == Blacken(t)
    {
    }

    ghost predicate HasKey(key: int)
      reads this
    {
      exists e :: e in Contents() && e.key == key
    }

    method LinkCell(z: Node, y: Node, ghost m: map<Node, Cell>, ghost left: bool, ghost newTree: Tree)
      requires Matches(m) && nil !in m && z !in m && z != nil && y in m.Keys + {nil}
      requires y != nil ==> (z.key < y.key <==> left)
      modifies this`root, this`tree, Real(y)`left, Real(y)`right, {z}`parent, {z}`left, {z}`right, {z}`color
      ensures Matches(LinkCells(m, z, Cell(Red, Entry(z.key, z.value), nil, nil, y), left, nil)) && tree == newTree
      ensures root == if y == nil then z else old(root)
    {
      assert y != nil ==> Stored(y) == m[y];
      z.parent := y;
      if y == nil {
        root := z;
      } else if z.key < y.key {
        y.left := z;
      } else {
        y.right := z;
      }
      z.left := nil;
      z.right := nil;
      z.color := Red;
      tree := newTree;
      ghost var m2 := LinkCells(m, z, Cell(Red, Entry(z.key, z.value), nil, nil, y), left, nil);
      assert Stored(z) == m2[z];
      assert y != nil ==> Stored(y) == m2[y];
      forall n | n in m && n != y
        ensures Stored(n) == m2[n]
      {
        assert unchanged(n);
      }
    }

    /** Hangs `z` as a red leaf into the empty position `c`. */
    method LinkAt(z: Node, y: Node, ghost c: Ctx)
      requires Linked() && tree == Plug(c, E) && z !in Ids(tree) && z != nil && y == CtxPtr(c, nil)
      requires Sorted(Entries(tree)) && OnPath(c, z.key)
      modifies this, Ids(tree), z
      ensures Linked() && tree == Plug(c, N(z, Red, Entry(z.key, z.value), E, E))
      ensures z.key == old(z.key) && z.value == old(z.value)
      ensures Ids(tree) == old(Ids(tree)) + {z}
      ensures Sorted(Entries(tree)) && Contents() == old(Contents()) + {Entry(z.key, z.value)}
    {
      ghost var e := Entry(z.key, z.value);
      ghost var t := N(z, Red, e, E, E);
      hide Cells, CellOf, LinkCells, Ids, Distinct, Sorted, Matches;
      LinkPlug(c, z, Red, e, nil);
      LinkEntries(c, z, Red, e);
      PlugPtr(c, E, nil);
      PlugPtr(c, t, nil);
      if !c.Top? {
        See(c.up, Up(c, E));
        assert c.e in if c.InLeft? then After(c) else Before(c);
      }
      hide Plug, Entries, Before, After;
      LinkCell(z, y, Cells(tree, nil), c.InLeft?, Plug(c, t));
    }

    /**
     Inserts a fresh node. If its key is taken, nothing changes; otherwise exactly its
     binding is added, and the tree is a red-black tree again.
     */
    method Insert(z: Node)
      requires Valid() && z != nil && z !in Ids(tree)
      modifies this, Ids(tree), z
      ensures Valid()
      ensures old(HasKey(z.key)) ==> unchanged(this) && unchanged(z)
      ensures !old(HasKey(z.key)) ==>
        && Ids(tree) == old(Ids(tree)) + {z}
        && Contents() == old(Contents()) + {old(Entry(z.key, z.value))}
    {
      hide Linked, Balanced, CtxBalanced, Ids, Distinct, CtxDistinct, CtxIds, Bh, RootBlack, Sorted, Entries, Bindings;
      var y := nil;
      var x := root;
      ghost var c, t := Top, tree;
      See(c, t);
      assert OnPath(c, z.key);
      hide OnPath, RedAt;
      while x != nil
        invariant Linked() && tree == Plug(c, t) && x == Ptr(t, nil) && y == CtxPtr(c, nil)
        invariant OnPath(c, z.key)
        modifies {}
        decreases t
      {
        y := x;
        See(c, t);
        Descend(c, t, z.key);
        if z.key < x.key {
          x := x.left;
          c, t := InLeft(t.id, t.color, t.e, t.r, c), t.l;
        } else if z.key > x.key {
          x := x.right;
          c, t := InRight(t.id, t.color, t.e, t.l, c), t.r;
        } else {
          return;
        }
      }
      See(c, t);
      NotFound(c, z.key);
      ghost var leaf := N(z, Red, Entry(z.key, z.value), E, E);
      RedLeaf(c, leaf);
      LinkAt(z, y, c);
      InsertFixup(z, c, leaf);
    }

    // -------------------------------------------------------------- deletion

    /** A red sibling on the right: the rotation at the parent gives `x` a black one. */
    method RedSiblingLeftAt(x: Node, ghost c0: Ctx, ghost t: Tree)
      returns (w: Node, ghost c: Ctx)
      requires Linked() && tree == Plug(c0, t) && ShortAt(c0, t) && c0.InLeft? && IsRed(c0.r)
      requires x.parent == c0.id && (t.E? ==> x == nil) && (t.N? ==> x == t.id)
      modifies this, Ids(tree)
      ensures Linked() && tree == Plug(c, t) && ShortAt(c, t) && c.InLeft? && c.color == Red
      ensures x.parent == c.id && c.r.N? && !IsRed(c.r) && w == c.r.id
      ensures Ids(tree) == old(Ids(tree)) && Entries(tree) == old(Entries(tree))
    {
      hide Linked, Balanced, CtxBalanced, Entries, Ids, Distinct, CtxDistinct, CtxIds, Bh, RootBlack;
      c := c0;
      SeeUp(c, t);
      ShortParent(c, t);
      RedSiblingLeft(c, t);
      hide ShortAt;
      w := x.parent.right;
      Paint(w, Black, InRight(c.id, c.color, c.e, t, c.up), c.r);
      Paint(x.parent, Red, c.up, Join(c, c.color, t, Blacken(c.r)));
      RotateLeftAt(x.parent, c.up, Join(c, Red, t, Blacken(c.r)));
      c := InLeft(c.id, Red, c.e, c.r.l, InLeft(c.r.id, Black, c.r.e, c.r.r, c.up));
      See(c, t);
      SeeUp(c, t);
      w := x.parent.right;
    }

    /** A black sibling whose far child is red: the rotation at the parent ends the loop. */
    method FarNephewLeftAt(x: Node, w: Node, ghost c: Ctx, ghost t: Tree)
      requires Linked() && nil.color == Black && tree == Plug(c, t) && ShortAt(c, t) && !IsRed(t)
      requires c.InLeft? && c.r.N? && w == c.r.id && !IsRed(c.r) && IsRed(c.r.r) && x.parent == c.id
      modifies this, Ids(tree)
      ensures Linked() && Balanced(tree) && !IsRed(tree)
      ensures Ids(tree) == old(Ids(tree)) && Entries(tree) == old(Entries(tree))
    {
      hide Linked, Balanced, CtxBalanced, Entries, Ids, Distinct, CtxDistinct, CtxIds, Bh, RootBlack, ShortAt;
      SeeUp(c, t);
      ghost var wc := InRight(c.id, c.color, c.e, t, c.up);
      See(wc, c.r);
      FarNephewLeft(c, t);
      ghost var s := c.r;
      Paint(w, x.parent.color, wc, s);
      Paint(x.parent, Black, c.up, Join(c, c.color, t, s.(color := c.color)));
      Paint(w.right, Black, InRight(s.id, c.color, s.e, s.l, InRight(c.id, Black, c.e, t, c.up)), s.r);
      RotateLeftAt(x.parent, c.up, Join(c, Black, t, N(s.id, c.color, s.e, s.l, Blacken(s.r))));
    }

    /** A black sibling on the right with a red child: at most two rotations end the loop. */
    method RedNephewLeftAt(x: Node, w0: Node, ghost c0: Ctx, ghost t: Tree)
      requires Linked() && nil.color == Black && tree == Plug(c0, t) && ShortAt(c0, t) && !IsRed(t)
      requires c0.InLeft? && c0.r.N? && w0 == c0.r.id && !IsRed(c0.r) && (IsRed(c0.r.l) || IsRed(c0.r.r))
      requires x.parent == c0.id && (t.E? ==> x == nil) && (t.N? ==> x == t.id)
      modifies this, Ids(tree)
      ensures Linked() && Balanced(tree) && !IsRed(tree)
      ensures Ids(tree) == old(Ids(tree)) && Entries(tree) == old(Entries(tree))
    {
      hide Linked, Balanced, CtxBalanced, Entries, Ids, Distinct, CtxDistinct, CtxIds, Bh, RootBlack, ShortAt;
      var w := w0;
      ghost var c := c0;
      SeeUp(c, t);
      ghost var wc := InRight(c.id, c.color, c.e, t, c.up);
      See(wc, c.r);
      if w.right.color == Black {
        NearNephewLeft(c, t);
        ghost var s := c.r;
        Paint(w.left, Black, InLeft(s.id, s.color, s.e, s.r, wc), s.l);
        Paint(w, Red, wc, N(s.id, s.color, s.e, Blacken(s.l), s.r));
        RotateRightAt(w, wc, N(s.id, Red, s.e, Blacken(s.l), s.r));
        c := c.(r := N(s.l.id, Black, s.l.e, s.l.l, N(s.id, Red, s.e, s.l.r, s.r)));
        See(c, t);
        SeeUp(c, t);
        See(wc, c.r);
        w := x.parent.right;
      }
      FarNephewLeftAt(x, w, c, t);
    }

    /** A red sibling on the left: the rotation at the parent gives `x` a black one. */
    method RedSiblingRightAt(x: Node, ghost c0: Ctx, ghost t: Tree)
      returns (w: Node, ghost c: Ctx)
      requires Linked() && tree == Plug(c0, t) && ShortAt(c0, t) && c0.InRight? && IsRed(c0.l)
      requires x.parent == c0.id && (t.E? ==> x == nil) && (t.N? ==> x == t.id)
      modifies this, Ids(tree)
      ensures Linked() && tree == Plug(c, t) && ShortAt(c, t) && c.InRight? && c.color == Red
      ensures x.parent == c.id && c.l.N? && !IsRed(c.l) && w == c.l.id
      ensures Ids(tree) == old(Ids(tree)) && Entries(tree) == old(Entries(tree))
    {
      hide Linked, Balanced, CtxBalanced, Entries, Ids, Distinct, CtxDistinct, CtxIds, Bh, RootBlack;
      c := c0;
      SeeUp(c, t);
      ShortParent(c, t);
      RedSiblingRight(c, t);
      hide ShortAt;
      w := x.parent.left;
      Paint(w, Black, InLeft(c.id, c.color, c.e, t, c.up), c.l);
      Paint(x.parent, Red, c.up, Join(c, c.color, t, Blacken(c.l)));
      RotateRightAt(x.parent, c.up, Join(c, Red, t, Blacken(c.l)));
      c := InRight(c.id, Red, c.e, c.l.r, InRight(c.l.id, Black, c.l.e, c.l.l, c.up));
      See(c, t);
      SeeUp(c, t);
      w := x.parent.left;
    }

    /** A black sibling whose far child is red: the rotation at the parent ends the loop. */
    method FarNephewRightAt(x: Node, w: Node, ghost c: Ctx, ghost t: Tree)
      requires Linked() && nil.color == Black && tree == Plug(c, t) && ShortAt(c, t) && !IsRed(t)
      requires c.InRight? && c.l.N? && w == c.l.id && !IsRed(c.l) && IsRed(c.l.l) && x.parent == c.id
      modifies this, Ids(tree)
      ensures Linked() && Balanced(tree) && !IsRed(tree)
      ensures Ids(tree) == old(Ids(tree)) && Entries(tree) == old(Entries(tree))
    {
      hide Linked, Balanced, CtxBalanced, Entries, Ids, Distinct, CtxDistinct, CtxIds, Bh, RootBlack, ShortAt;
      SeeUp(c, t);
      ghost var wc := InLeft(c.id, c.color, c.e, t, c.up);
      See(wc, c.l);
      FarNephewRight(c, t);
      ghost var s := c.l;
      Paint(w, x.parent.color, wc, s);
      Paint(x.parent, Black, c.up, Join(c, c.color, t, s.(color := c.color)));
      Paint(w.left, Black, InLeft(s.id, c.color, s.e, s.r, InLeft(c.id, Black, c.e, t, c.up)), s.l);
      RotateRightAt(x.parent, c.up, Join(c, Black, t, N(s.id, c.color, s.e, Blacken(s.l), s.r)));
    }

    /** A black sibling on the left with a red child: at most two rotations end the loop. */
    method RedNephewRightAt(x: Node, w0: Node, ghost c0: Ctx, ghost t: Tree)
      requires Linked() && nil.color == Black && tree == Plug(c0, t) && ShortAt(c0, t) && !IsRed(t)
      requires c0.InRight? && c0.l.N? && w0 == c0.l.id && !IsRed(c0.l) && (IsRed(c0.l.l) || IsRed(c0.l.r))
      requires x.parent == c0.id && (t.E? ==> x == nil) && (t.N? ==> x == t.id)
      modifies this, Ids(tree)
      ensures Linked() && Balanced(tree) && !IsRed(tree)
      ensures Ids(tree) == old(Ids(tree)) && Entries(tree) == old(Entries(tree))
    {
      hide Linked, Balanced, CtxBalanced, Entries, Ids, Distinct, CtxDistinct, CtxIds, Bh, RootBlack, ShortAt;
      var w := w0;
      ghost var c := c0;
      SeeUp(c, t);
      ghost var wc := InLeft(c.id, c.color, c.e, t, c.up);
      See(wc, c.l);
      if w.left.color == Black {
        NearNephewRight(c, t);
        ghost var s := c.l;
        Paint(w.right, Black, InRight(s.id, s.color, s.e, s.l, wc), s.r);
        Paint(w, Red, wc, N(s.id, s.color, s.e, s.l, Blacken(s.r)));
        RotateLeftAt(w, wc, N(s.id, Red, s.e, s.l, Blacken(s.r)));
        c := c.(l := N(s.r.id, Black, s.r.e, N(s.id, Red, s.e, s.l, s.r.l), s.r.r));
        See(c, t);
        SeeUp(c, t);
        See(wc, c.l);
        w := x.parent.left;
      }
      FarNephewRightAt(x, w, c, t);
    }

    /** A black sibling with black children: it turns red, and the shortage moves to the parent. */
    method PushUpAt(x0: Node, w: Node, ghost c0: Ctx, ghost t0: Tree)
      returns (x: Node, ghost c: Ctx, ghost t: Tree)
      requires Linked() && tree == Plug(c0, t0) && ShortAt(c0, t0) && !IsRed(t0) && !c0.Top?
      requires Sib(c0).N? && w == Sib(c0).id && !IsRed(Sib(c0)) && !IsRed(Sib(c0).l) && !IsRed(Sib(c0).r)
      requires x0.parent == c0.id && x0 == Ptr(t0, nil)
      modifies this, Ids(tree)
      ensures Linked() && tree == Plug(c, t) && ShortAt(c, t) && c == c0.up
      ensures t.N? && t.color == c0.color && x == t.id && x.parent == CtxPtr(c, nil)
      ensures Ids(tree) == old(Ids(tree)) && Entries(tree) == old(Entries(tree))
    {
      hide Linked, Balanced, CtxBalanced, Entries, Ids, Distinct, CtxDistinct, CtxIds, Bh, RootBlack;
      SeeUp(c0, t0);
      PushUp(c0, t0);
      hide ShortAt;
      Paint(w, Red, if c0.InLeft? then InRight(c0.id, c0.color, c0.e, t0, c0.up)
        else InLeft(c0.id, c0.color, c0.e, t0, c0.up), Sib(c0));
      x := x0.parent;
      c, t := c0.up, Join(c0, c0.color, t0, Sib(c0).(color := Red));
      See(c, t);
    }

    /** The colours of the sibling's children, as the program reads them through the links. */
    lemma SeeNephews(c: Ctx, t: Tree)
      requires Linked() && nil.color == Black && tree == Plug(c, t) && !c.Top? && Sib(c).N?
      ensures var w := Sib(c);
        && (w.id.left.color == Red <==> IsRed(w.l)) && (w.id.right.color == Red <==> IsRed(w.r))
    {
      if c.InLeft? {
        See(InRight(c.id, c.color, c.e, t, c.up), c.r);
      } else {
        See(InLeft(c.id, c.color, c.e, t, c.up), c.l);
      }
    }

    /** A tree in order, seen from the root, is short of nothing. */
    lemma WholeShort(t: Tree)
      requires Balanced(t) && !IsRed(t)
      ensures ShortAt(Top, t)
    {
    }

    /** Painting a node black, the sentinel included. */
    method PaintBlack(x: Node, ghost c: Ctx, ghost t: Tree)
      requires Linked() && nil.color == Black && tree == Plug(c, t) && x == Ptr(t, nil)
      modifies this`tree, x`color
      ensures Linked() && nil.color == Black && tree == Plug(c, Blacken(t))
      ensures Ids(tree) == old(Ids(tree)) && Entries(tree) == old(Entries(tree))
    {
      See(c, t);
      if x == nil {
        x.color := Black;
      } else {
        Paint(x, Black, c, t);
      }
    }

    /** One round of the loop when `x` is a left child. */
    method DeleteRoundLeft(x0: Node, ghost c0: Ctx, ghost t0: Tree)
      returns (x: Node, ghost c: Ctx, ghost t: Tree)
      requires Linked() && nil.color == Black && tree == Plug(c0, t0) && ShortAt(c0, t0)
      requires c0.InLeft? && x0 == Ptr(t0, nil) && x0.parent == c0.id && !IsRed(t0) && t0.E? == (x0 == nil)
      modifies this, Ids(tree)
      ensures Linked() && tree == Plug(c, t) && ShortAt(c, t) && x == Ptr(t, nil)
      ensures !c.Top? ==> x.parent == c.id
      ensures IsRed(t) || c.Top? || Depth(c) < Depth(c0)
      ensures Ids(tree) == old(Ids(tree)) && Entries(tree) == old(Entries(tree))
    {
      hide Linked, Balanced, CtxBalanced, Entries, Ids, Distinct, CtxDistinct, CtxIds, Bh, RootBlack, Plug, ShortAt;
      x, c, t := x0, c0, t0;
      See(c, t);
      SeeUp(c, t);
      ShortParent(c, t);
      DepthUp(c);
      hide Depth;
      var w := x.parent.right;
      if w.color == Red {
        w, c := RedSiblingLeftAt(x, c, t);
      }
      SeeNephews(c, t);
      if w.left.color == Black && w.right.color == Black {
        x, c, t := PushUpAt(x, w, c, t);
      } else {
        RedNephewLeftAt(x, w, c, t);
        x := root;
        c, t := Top, tree;
        PlugTop(tree);
        See(Top, tree);
        WholeShort(tree);
      }
    }

    /** One round of the loop when `x` is a right child. */
    method DeleteRoundRight(x0: Node, ghost c0: Ctx, ghost t0: Tree)
      returns (x: Node, ghost c: Ctx, ghost t: Tree)
      requires Linked() && nil.color == Black && tree == Plug(c0, t0) && ShortAt(c0, t0)
      requires c0.InRight? && x0 == Ptr(t0, nil) && x0.parent == c0.id && !IsRed(t0) && t0.E? == (x0 == nil)
      modifies this, Ids(tree)
      ensures Linked() && tree == Plug(c, t) && ShortAt(c, t) && x == Ptr(t, nil)
      ensures !c.Top? ==> x.parent == c.id
      ensures IsRed(t) || c.Top? || Depth(c) < Depth(c0)
      ensures Ids(tree) == old(Ids(tree)) && Entries(tree) == old(Entries(tree))
    {
      hide Linked, Balanced, CtxBalanced, Entries, Ids, Distinct, CtxDistinct, CtxIds, Bh, RootBlack, Plug, ShortAt;
      x, c, t := x0, c0, t0;
      See(c, t);
      SeeUp(c, t);
      ShortParent(c, t);
      DepthUp(c);
      hide Depth;
      var w := x.parent.left;
      if w.color == Red {
        w, c := RedSiblingRightAt(x, c, t);
      }
      SeeNephews(c, t);
      if w.right.color == Black && w.left.color == Black {
        x, c, t := PushUpAt(x, w, c, t);
      } else {
        RedNephewRightAt(x, w, c, t);
        x := root;
        c, t := Top, tree;
        PlugTop(tree);
        See(Top, tree);
        WholeShort(tree);
      }
    }

    method DeleteFixup(x0: Node, ghost c0: Ctx, ghost t0: Tree)
      requires Linked() && nil.color == Black && tree == Plug(c0, t0) && ShortAt(c0, t0)
      requires x0 == Ptr(t0, nil) && (t0.E? ==> nil.parent == CtxPtr(c0, nil))
      modifies this, Ids(tree), nil
      ensures Linked() && nil.color == Black && Balanced(tree) && !IsRed(tree) && Contents() == old(Contents())
      ensures Ids(tree) == old(Ids(tree)) && Entries(tree) == old(Entries(tree))
    {
      hide Linked, Balanced, CtxBalanced, Entries, Ids, Distinct, CtxDistinct;
      hide CtxIds, Bh, RootBlack, Plug, ShortAt, Depth;
      var x := x0;
      ghost var c, t := c0, t0;
      See(c, t);
      while x != root && x.color == Black
        invariant Linked() && tree == Plug(c, t) && ShortAt(c, t)
        invariant x == Ptr(t, nil) && (!c.Top? ==> x.parent == c.id)
        invariant nil !in Ids(tree) && nil.color == Black
        invariant Ids(tree) == old(Ids(tree)) && Entries(tree) == old(Entries(tree))
        decreases if IsRed(t) || c.Top? then 0 else 1 + Depth(c)
      {
        See(c, t);
        SeeUp(c, t);
        ShortParent(c, t);
        if x == x.parent.left {
          x, c, t := DeleteRoundLeft(x, c, t);
        } else {
          x, c, t := DeleteRoundRight(x, c, t);
        }
      }
      See(c, t);
      ShortDone(c, t);
      PaintBlack(x, c, t);
    }

    // -------------------------------------------------------------- neighbours

    /** The leftmost node below `x`. */
    method Mini(x0: Node, ghost c: Ctx, ghost t: Tree)
      returns (x: Node, ghost inner: Ctx, ghost s: Tree)
      requires Linked() && tree == Plug(c, t) && t.N? && t.id == x0
      ensures Linked() && s.N? && x == s.id && s.l.E? && t == Plug(inner, s) && Before(inner) == []
      ensures x in Ids(t) && Entries(t) != [] && Entries(t)[0] == Entry(x.key, x.value)
    {
      hide Linked;
      x := x0;
      inner, s := Top, t;
      See(c, t);
      while x.left != nil
        invariant Linked() && s.N? && x == s.id && t == Plug(inner, s) && Before(inner) == []
        invariant x.left == Ptr(s.l, nil)
        modifies {}
        decreases s
      {
        PlugComp(inner, c, s);
        See(Comp(inner, c), s);
        x := x.left;
        inner, s := InLeft(s.id, s.color, s.e, s.r, inner), s.l;
        PlugComp(inner, c, s);
        See(Comp(inner, c), s);
      }
      PlugComp(inner, c, s);
      See(Comp(inner, c), s);
      PlugEntries(inner, s);
      PlugIds(inner, s);
    }

    /**
     The next node in the order of keys, or the sentinel after the last one. The ghost results
     say where that node is; `inner` is the way down to it inside the right subtree, if any.
     */
    method Successor(x0: Node, ghost c0: Ctx, ghost t0: Tree)
      returns (y: Node, ghost c: Ctx, ghost t: Tree, ghost inner: Ctx)
      requires Linked() && Sorted(Entries(tree)) && tree == Plug(c0, t0) && t0.N? && t0.id == x0
      ensures Linked() && (y == nil <==> t0.r.E? && After(c0) == [])
      ensures y == nil ==> forall e :: e in Contents() ==> e.key <= x0.key
      ensures y != nil ==> tree == Plug(c, t) && t.N? && t.id == y && y in Ids(tree) && Follows(c0, t0, c, t)
      ensures y != nil ==> x0.key < y.key && forall e :: e in Contents() ==> e.key <= x0.key || y.key <= e.key
      ensures t0.r.N? ==>
        && t.N? && t.l.E? && t0.r == Plug(inner, t) && Before(inner) == []
        && c == Below(c0, t0, t0.e, inner)
    {
      hide Linked, Sorted, Ids, CtxIds, Distinct, CtxDistinct, Bindings, Plug;
      See(c0, t0);
      if x0.right != nil {
        ghost var below := InRight(t0.id, t0.color, t0.e, t0.l, c0);
        PlugDown(c0, t0);
        y, inner, t := Mini(x0.right, below, t0.r);
        c := Comp(inner, below);
        PlugComp(inner, below, t);
        CompBefore(inner, below);
        See(c, t);
        FollowsKeys(c0, t0, c, t);
        return;
      }
      inner := Top;
      y, c, t := Climb(x0, c0, t0);
    }

    /** The nearest node on the way up of which `x` lies to the left. */
    method Climb(x0: Node, ghost c0: Ctx, ghost t0: Tree)
      returns (y: Node, ghost c: Ctx, ghost t: Tree)
      requires Linked() && Sorted(Entries(tree)) && tree == Plug(c0, t0) && t0.N? && t0.id == x0 && t0.r.E?
      ensures Linked() && (y == nil <==> After(c0) == [])
      ensures y == nil ==> forall e :: e in Contents() ==> e.key <= x0.key
      ensures y != nil ==> tree == Plug(c, t) && t.N? && t.id == y && y in Ids(tree) && Follows(c0, t0, c, t)
      ensures y != nil ==> x0.key < y.key && forall e :: e in Contents() ==> e.key <= x0.key || y.key <= e.key
    {
      ghost var upTo := Before(c0) + Entries(t0.l) + [t0.e];
      assert Before(c0) + Entries(t0) == upTo;
      hide Linked, Sorted, Ids, CtxIds, Distinct, CtxDistinct, Bindings, Plug, Before, After, Entries;
      See(c0, t0);
      var x := x0;
      y := x.parent;
      ghost var d, s := c0, t0;
      while y != nil && x == y.right
        invariant Linked() && tree == Plug(d, s) && s.N? && x == s.id && y == CtxPtr(d, nil)
        invariant After(d) == After(c0) && Before(d) + Entries(s) == upTo
        modifies {}
        decreases Depth(d)
      {
        See(d, s);
        SeeUp(d, s);
        x := y;
        y := y.parent;
        ClimbStep(d, s);
        d, s := d.up, Up(d, s);
      }
      See(d, s);
      ClimbStep(d, s);
      if d.Top? {
        c, t := d, s;
        LastKeys(c0, t0);
      } else {
        SeeUp(d, s);
        c, t := d.up, Up(d, s);
        FollowsKeys(c0, t0, c, t);
        See(c, t);
      }
    }

    lemma ClimbStep(c: Ctx, t: Tree)
      ensures c.Top? ==> After(c) == []
      ensures c.InRight? ==> After(c) == After(c.up) && Before(c.up) + Entries(Up(c, t)) == Before(c) + Entries(t)
      ensures c.InLeft? ==> After(c) != [] && Before(c.up) + Entries(Up(c, t).l) == Before(c) + Entries(t)
    {
    }

    lemma PlugDown(c: Ctx, t: Tree)
      requires t.N?
      ensures Plug(InRight(t.id, t.color, t.e, t.l, c), t.r) == Plug(c, t)
    {
    }

    lemma {:induction false} CompBefore(inner: Ctx, outer: Ctx)
      ensures Before(Comp(inner, outer)) == Before(outer) + Before(inner)
    {
      if !inner.Top? {
        CompBefore(inner.up, outer);
      }
    }

    // -------------------------------------------------------------- deletion

    method SpliceLinks(x: Node, y: Node)
      requires y != nil && x != y && y.parent != y && (y.parent == x ==> x == nil)
      modifies this`root, {x}`parent, Real(y.parent)`left, Real(y.parent)`right
      ensures var p := old(y.parent);
        && Stored(x) == old(Stored(x)).(parent := p)
        && (p != nil ==> Stored(p) == if old(p.left) == y then old(Stored(p)).(left := x)
           else old(Stored(p)).(right := x))
        && root == (if p == nil then x else old(root))
    {
      x.parent := y.parent;
      if y.parent == nil {
        root := x;
      } else if y == y.parent.left {
        y.parent.left := x;
      } else {
        y.parent.right := x;
      }
    }

    method SpliceNodes(x: Node, y: Node, ghost m: map<Node, Cell>, ghost newTree: Tree)
      requires Matches(m) && CanSplice(m, x, y, nil) && nil.color == Black
      modifies this, nil, m.Keys
      ensures Matches(SpliceCells(m, x, y, nil)) && tree == newTree && nil.color == Black
      ensures root == if m[y].parent == nil then x else old(root)
      ensures x == nil ==> nil.parent == m[y].parent
      ensures Stored(y) == m[y]
    {
      ghost var p := m[y].parent;
      ghost var others := m.Keys - {x, p};
      Matching(m, x, y);
      hide Matches, SpliceCells;
      SpliceLinks(x, y);
      forall n | n in others
        ensures Stored(n) == m[n]
      {
        assert old(Stored(n)) == m[n] && unchanged(n);
      }
      tree := newTree;
      SplicedMatch(m, x, y);
    }

    lemma Matching(m: map<Node, Cell>, x: Node, y: Node)
      requires Matches(m) && CanSplice(m, x, y, nil)
      ensures Stored(y) == m[y] && (x != nil ==> Stored(x) == m[x])
      ensures var p := m[y].parent; (p != nil ==> Stored(p) == m[p]) && forall n :: n in m.Keys - {x, p} ==>
              Stored(n) == m[n]
    {
    }

    /** The two nodes written hold their new cells, the others their old ones. */
    lemma SplicedMatch(m: map<Node, Cell>, x: Node, y: Node)
      requires CanSplice(m, x, y, nil)
      requires var p := m[y].parent;
        && (x != nil ==> Stored(x) == m[x].(parent := p))
        && (p != nil ==> Stored(p) == if m[p].left == y then m[p].(left := x) else m[p].(right := x))
        && forall n :: n in m.Keys - {x, p} ==> Stored(n) == m[n]
      ensures Matches(SpliceCells(m, x, y, nil))
    {
    }

    /** Cuts node `y` with at most one child out of the tree; the sentinel may borrow its parent link. */
    method SpliceAt(x: Node, y: Node, ghost c: Ctx, ghost t: Tree)
      requires Linked() && nil.color == Black && tree == Plug(c, t)
      requires t.N? && t.id == y && (t.l.E? || t.r.E?) && x == Ptr(OnlyChild(t), nil)
      modifies this, Ids(tree), nil
      ensures Linked() && nil.color == Black && tree == Plug(c, OnlyChild(t))
      ensures Ids(tree) == old(Ids(tree)) - {y}
      ensures x == nil ==> nil.parent == CtxPtr(c, nil)
      ensures y.color == t.color && y.key == t.e.key && y.value == t.e.value
    {
      SpliceFits(c, t, nil);
      SpliceIds(c, t);
      SplicePlug(c, t, nil);
      PlugPtr(c, t, nil);
      PlugPtr(c, OnlyChild(t), nil);
      See(c, t);
      hide Cells, CellOf, SpliceCells, CanSplice, Plug, Ids, Distinct, Matches;
      SpliceNodes(x, y, Cells(tree, nil), Plug(c, OnlyChild(t)));
    }

    /** Moves the binding of a node that has been cut out onto node `z`. */
    method Rebind(z: Node, y: Node, ghost c: Ctx, ghost t: Tree, ghost e: Entry)
      requires Linked() && tree == Plug(c, t) && t.N? && t.id == z
      requires y.key == e.key && y.value == e.value
      modifies this`tree, z`key, z`value
      ensures Linked() && tree == Plug(c, N(t.id, t.color, e, t.l, t.r)) && Ids(tree) == old(Ids(tree))
    {
      RestorePlug(c, t, t.color, e, nil);
      PlugPtr(c, t, nil);
      PlugPtr(c, N(t.id, t.color, e, t.l, t.r), nil);
      hide Cells, CellOf, Plug, Ids, Distinct;
      z.key := y.key;
      z.value := y.value;
      tree := Plug(c, N(t.id, t.color, e, t.l, t.r));
    }

    /** The copy of key and value from the successor `y`, which has been cut out, to `z`. */
    method RebindNext(z: Node, y: Node, ghost c0: Ctx, ghost inner: Ctx, ghost t: Tree, ghost cz: Ctx, ghost tz: Tree)
      returns (ghost c: Ctx)
      requires tz.N? && tz.id == z && t.N? && t.l.E? && c0 == Below(cz, tz, tz.e, inner)
      requires Linked() && tree == Plug(c0, t.r)
      requires y.key == t.e.key && y.value == t.e.value
      modifies this`tree, z`key, z`value
      ensures c == Below(cz, tz, t.e, inner) && CtxPtr(c, nil) == CtxPtr(c0, nil)
      ensures Linked() && tree == Plug(c, t.r) && Ids(tree) == old(Ids(tree))
    {
      c := Below(cz, tz, t.e, inner);
      BelowPlug(cz, tz, tz.e, inner, t.r);
      BelowPlug(cz, tz, t.e, inner, t.r);
      CompTop(inner, InRight(tz.id, tz.color, tz.e, tz.l, cz));
      CompTop(inner, InRight(tz.id, tz.color, t.e, tz.l, cz));
      hide Plug, Linked, Ids, Comp;
      Rebind(z, y, cz, N(tz.id, tz.color, tz.e, tz.l, Plug(inner, t.r)), t.e);
    }

    /** The node that deleting `z` cuts out: `z` itself, or its successor if `z` has two children. */
    method Victim(z: Node, ghost cz: Ctx, ghost tz: Tree)
      returns (y: Node, ghost c: Ctx, ghost t: Tree, ghost inner: Ctx)
      requires Linked() && Sorted(Entries(tree)) && Balanced(tree) && !IsRed(tree)
      requires tree == Plug(cz, tz) && tz.N? && tz.id == z
      ensures Linked() && tree == Plug(c, t) && t.N? && t.id == y && (t.l.E? || t.r.E?) && y in Ids(tree)
      ensures y == z ==> Removed(tree, tz.e, t.color, c, OnlyChild(t))
      ensures y != z ==> c == Below(cz, tz, tz.e, inner) && t.l.E?
      ensures y != z ==> Removed(tree, tz.e, t.color, Below(cz, tz, t.e, inner), OnlyChild(t))
    {
      hide Linked, Balanced, Sorted, Ids, Entries, Plug, Bindings, Before, After, ShortAt, Comp, Below, Removed;
      See(cz, tz);
      if z.left == nil || z.right == nil {
        y, c, t, inner := z, cz, tz, Top;
        CutSelf(cz, tz);
      } else {
        y, c, t, inner := Successor(z, cz, tz);
        See(c, t);
        CutNext(cz, tz, inner, t);
      }
    }

    /**
     Deletes the binding of node `z`. The node cut out, which is returned, is `z` itself or
     its successor; it is no longer reachable, and every other binding stays.
     */
    method Delete(z: Node) returns (y: Node)
      requires Valid() && z in Ids(tree)
      modifies this, Ids(tree), nil
      ensures Valid()
      ensures y in old(Ids(tree)) && Ids(tree) == old(Ids(tree)) - {y}
      ensures Contents() == old(Contents()) - {old(Entry(z.key, z.value))}
      ensures !HasKey(old(z.key))
    {
      hide Linked, Balanced, Sorted, Ids, Distinct, Entries, Plug, Bindings, Before, After, ShortAt, Comp, Below;
      PlugTop(tree);
      ghost var at := Find(Top, tree, z);
      hide Find;
      ghost var cz, tz := at.0, at.1;
      See(cz, tz);
      ghost var c, t, inner;
      y, c, t, inner := Victim(z, cz, tz);
      See(c, t);
      var x := nil;
      if y.left != nil {
        x := y.left;
      } else if y.right != nil {
        x := y.right;
      }
      SpliceAt(x, y, c, t);
      if y != z {
        c := RebindNext(z, y, c, inner, t, cz, tz);
      }
      if y.color == Black {
        DeleteFixup(x, c, OnlyChild(t));
      }
    }

    // -------------------------------------------------------------- search

    /** A valid tree with n nodes is at most 2 * log2(n + 1) high. */
    lemma HeightBound()
      requires Valid()
      ensures Pow2(Height(tree)) <= (|Ids(tree)| + 1) * (|Ids(tree)| + 1)
    {
      assert Distinct(tree) && Balanced(tree) && !IsRed(tree);
      hide *;
      HeightOf(tree);
    }

    static lemma HeightOf(t: Tree)
      requires Distinct(t) && Balanced(t) && !IsRed(t)
      ensures Pow2(Height(t)) <= (|Ids(t)| + 1) * (|Ids(t)| + 1)
    {
      hide Balanced, Distinct, Height, Pow2, Ids, Size;
      LogHeight(t);
      SizeIsIds(t);
    }

    /** A position of the tree that the search for `key` can come to. */
    ghost predicate Reached(c: Ctx, t: Tree, key: int)
      reads this
    {
      tree == Plug(c, t) && OnPath(c, key)
    }

    /** One round of the search: the two ways down from a position on the path of `key`. */
    lemma SearchStep(c: Ctx, t: Tree, key: int)
      requires Linked() && Sorted(Entries(tree)) && tree == Plug(c, t) && t.N? && OnPath(c, key)
      ensures t.id in Ids(tree) && t.e in Bindings(tree)
      ensures t.id.key == t.e.key && t.id.value == t.e.value
      ensures t.id.left == Ptr(t.l, nil) && t.id.right == Ptr(t.r, nil)
      ensures key < t.e.key ==> Reached(InLeft(t.id, t.color, t.e, t.r, c), t.l, key)
      ensures key > t.e.key ==> Reached(InRight(t.id, t.color, t.e, t.l, c), t.r, key)
      ensures Height(t.l) < Height(t) && Height(t.r) < Height(t)
    {
      See(c, t);
      Descend(c, t, key);
    }

    /** What the path of `key` says about the whole tree where it ends. */
    lemma SearchEnd(c: Ctx, key: int)
      requires Reached(c, E, key)
      ensures !HasKey(key)
    {
      NotFound(c, key);
    }

    /** The search loop itself. */
    method Locate(key: int) returns (node: Node, ghost steps: nat)
      requires Linked() && Sorted(Entries(tree))
      ensures node == nil <==> !HasKey(key)
      ensures node != nil ==> node in Ids(tree) && node.key == key && Entry(key, node.value) in Contents()
      ensures steps <= Height(tree)
    {
      assert Reached(Top, tree, key);
      hide Linked, Ids, Sorted, Entries, Bindings, Height, Plug, OnPath;
      node := root;
      steps := 0;
      ghost var c, t := Top, tree;
      See(c, t);
      assert node == Ptr(t, nil);
      while node != nil
        invariant Linked() && Reached(c, t, key) && node == Ptr(t, nil)
        invariant steps + Height(t) <= Height(tree)
        modifies {}
        decreases t
      {
        SearchStep(c, t, key);
        if key < node.key {
          node := node.left;
          c, t := InLeft(t.id, t.color, t.e, t.r, c), t.l;
        } else if key > node.key {
          node := node.right;
          c, t := InRight(t.id, t.color, t.e, t.l, c), t.r;
        } else {
          assert t.e in Contents();
          steps := steps + 1;
          return;
        }
        steps := steps + 1;
      }
      See(c, t);
      SearchEnd(c, key);
    }

    /** Finds the node with the given key, or the sentinel if there is none; `steps` counts rounds of the loop. */
    method Search(key: int) returns (node: Node, ghost steps: nat)
      requires Valid()
      ensures node == nil <==> !HasKey(key)
      ensures node != nil ==> node in Ids(tree) && node.key == key && Entry(key, node.value) in Contents()
      ensures steps <= Height(tree)
      ensures Pow2(steps) <= (|Ids(tree)| + 1) * (|Ids(tree)| + 1)
    {
      HeightBound();
      assert Linked() && Sorted(Entries(tree));
      hide *;
      node, steps := Locate(key);
      Pow2Mono(steps, Height(tree));
    }
  }
}
