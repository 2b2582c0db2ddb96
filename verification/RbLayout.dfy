/**
 How a shape is laid out in the heap: every node stores the cell that the shape prescribes
 for it. The heap is compared with the shape node by node (`Cells`), so that a local write
 changes a few cells, and what it does to the shape is a statement about values alone.
 */
module RbLayout {
  import opened RbShape

  /** What one node stores. */
  datatype Cell = Cell(color: Color, e: Entry, left: Node, right: Node, parent: Node)

  ghost function Stored(n: Node): Cell
    reads n
  {
    Cell(n.color, Entry(n.key, n.value), n.left, n.right, n.parent)
  }

  /** The pointer that stands for a subtree, and the one that stands for a path. */
  ghost function Ptr(t: Tree, nil: Node): Node {
    if t.E? then nil else t.id
  }

  ghost function CtxPtr(c: Ctx, nil: Node): Node {
    if c.Top? then nil else c.id
  }

  /** What node `n` has to store for the heap to be laid out as `t` below parent `p`. */
  ghost function CellOf(t: Tree, p: Node, nil: Node, n: Node): Cell
    requires n in Ids(t)
  {
    if n == t.id then Cell(t.color, t.e, Ptr(t.l, nil), Ptr(t.r, nil), p)
    else if n in Ids(t.l) then CellOf(t.l, t.id, nil, n)
    else CellOf(t.r, t.id, nil, n)
  }

  ghost function CtxCellOf(c: Ctx, hole: Node, nil: Node, n: Node): Cell
    requires n in CtxIds(c)
  {
    match c
    case InLeft(id, color, e, r, up) =>
      if n == id then Cell(color, e, hole, Ptr(r, nil), CtxPtr(up, nil))
      else if n in Ids(r) then CellOf(r, id, nil, n)
      else CtxCellOf(up, id, nil, n)
    case InRight(id, color, e, l, up) =>
      if n == id then Cell(color, e, Ptr(l, nil), hole, CtxPtr(up, nil))
      else if n in Ids(l) then CellOf(l, id, nil, n)
      else CtxCellOf(up, id, nil, n)
  }

  lemma {:induction false} PlugCell(c: Ctx, t: Tree, nil: Node, n: Node)
    requires CtxDistinct(c) && Distinct(t) && CtxIds(c) !! Ids(t)
    requires n in CtxIds(c) + Ids(t)
    ensures n in Ids(Plug(c, t))
    ensures CellOf(Plug(c, t), nil, nil, n)
         == if n in Ids(t) then CellOf(t, CtxPtr(c, nil), nil, n) else CtxCellOf(c, Ptr(t, nil), nil, n)
    decreases c
  {
    match c
    case Top =>
    case InLeft(id, color, e, r, up) => PlugCell(up, N(id, color, e, t, r), nil, n);
    case InRight(id, color, e, l, up) => PlugCell(up, N(id, color, e, l, t), nil, n);
  }

  lemma {:induction false} PlugPtr(c: Ctx, t: Tree, nil: Node)
    ensures Ptr(Plug(c, t), nil) == if c.Top? then Ptr(t, nil) else Ptr(Plug(c, E), nil)
    decreases c
  {
    match c
    case Top =>
    case InLeft(id, color, e, r, up) => PlugPtr(up, N(id, color, e, t, r), nil);
         PlugPtr(up, N(id, color, e, E, r), nil);
    case InRight(id, color, e, l, up) => PlugPtr(up, N(id, color, e, l, t), nil);
         PlugPtr(up, N(id, color, e, l, E), nil);
  }

  // ---------------------------------------------------------------- local changes

  ghost function RotL(t: Tree): Tree
    requires t.N? && t.r.N?
  {
    N(t.r.id, t.r.color, t.r.e, N(t.id, t.color, t.e, t.l, t.r.l), t.r.r)
  }

  ghost function RotR(t: Tree): Tree
    requires t.N? && t.l.N?
  {
    N(t.l.id, t.l.color, t.l.e, t.l.l, N(t.id, t.color, t.e, t.l.r, t.r))
  }

  /** Filling the hole differently only changes one link of the node above it. */
  lemma RefillCell(c: Ctx, hole: Node, hole2: Node, nil: Node, n: Node)
    requires n in CtxIds(c) && CtxDistinct(c) && nil !in CtxIds(c)
    ensures var k := CtxCellOf(c, hole, nil, n);
      CtxCellOf(c, hole2, nil, n)
      == if n != CtxPtr(c, nil) then k
         else if c.InLeft? then k.(left := hole2) else k.(right := hole2)
  {
  }

  lemma ReparentCell(t: Tree, p: Node, q: Node, nil: Node, n: Node)
    requires n in Ids(t)
    ensures CellOf(t, q, nil, n)
         == if n == t.id then CellOf(t, p, nil, n).(parent := q) else CellOf(t, p, nil, n)
  {
  }

  /** Where the cells of a subtree are found. */
  lemma SubCell(t: Tree, p: Node, nil: Node)
    requires Distinct(t) && t.N?
    ensures CellOf(t, p, nil, t.id) == Cell(t.color, t.e, Ptr(t.l, nil), Ptr(t.r, nil), p)
    ensures t.l.N? ==>
            t.l.id in Ids(t) && CellOf(t, p, nil, t.l.id) ==
            Cell(t.l.color, t.l.e, Ptr(t.l.l, nil), Ptr(t.l.r, nil), t.id)
    ensures t.r.N? ==>
            t.r.id in Ids(t) && CellOf(t, p, nil, t.r.id) ==
            Cell(t.r.color, t.r.e, Ptr(t.r.l, nil), Ptr(t.r.r, nil), t.id)
    ensures Ids(t) == {t.id} + Ids(t.l) + Ids(t.r)
    ensures t.l.N? ==> Ids(t.l) == {t.l.id} + Ids(t.l.l) + Ids(t.l.r)
    ensures t.r.N? ==> Ids(t.r) == {t.r.id} + Ids(t.r.l) + Ids(t.r.r)
  {
  }

  lemma RotLCell(t: Tree, p: Node, nil: Node, n: Node)
    requires Distinct(t) && t.N? && t.r.N? && n in Ids(t)
    ensures n in Ids(RotL(t))
    ensures var k := CellOf(t, p, nil, n);
      CellOf(RotL(t), p, nil, n)
      == if n == t.id then k.(right := Ptr(t.r.l, nil), parent := t.r.id)
         else if n == t.r.id then k.(left := t.id, parent := p)
         else if t.r.l.N? && n == t.r.l.id then k.(parent := t.id)
         else k
  {
    if n in Ids(t.r.l) {
      ReparentCell(t.r.l, t.r.id, t.id, nil, n);
    }
  }

  lemma RotRCell(t: Tree, p: Node, nil: Node, n: Node)
    requires Distinct(t) && t.N? && t.l.N? && n in Ids(t)
    ensures n in Ids(RotR(t))
    ensures var k := CellOf(t, p, nil, n);
      CellOf(RotR(t), p, nil, n)
      == if n == t.id then k.(left := Ptr(t.l.r, nil), parent := t.l.id)
         else if n == t.l.id then k.(right := t.id, parent := p)
         else if t.l.r.N? && n == t.l.r.id then k.(parent := t.id)
         else k
  {
    if n in Ids(t.l.r) {
      ReparentCell(t.l.r, t.l.id, t.id, nil, n);
    }
  }

  // ---------------------------------------------------------------- the heap as a map

  ghost function Cells(t: Tree, nil: Node): (m: map<Node, Cell>)
    ensures m.Keys == Ids(t)
  {
    map n | n in Ids(t) :: CellOf(t, nil, nil, n)
  }

  /** The nodes that a left rotation at `x` relinks are there, and are different ones. */
  ghost predicate CanRotL(m: map<Node, Cell>, x: Node, nil: Node) {
    && nil !in m && x in m && m[x].right in m
    && var y, p := m[x].right, m[x].parent; var b := m[y].left;
    && y != x && b in m.Keys + {nil} && p in m.Keys + {nil}
    && b != x && b != y && p != x && p != y && (p == b ==> p == nil)
  }

  ghost function RotLCells(m: map<Node, Cell>, x: Node, nil: Node): map<Node, Cell>
    requires CanRotL(m, x, nil)
  {
    var y, p := m[x].right, m[x].parent;
    var b := m[y].left;
    map n | n in m ::
      if n == x then m[n].(right := b, parent := y)
      else if n == y then m[n].(left := x, parent := p)
      else if n == b then m[n].(parent := x)
      else if n == p then (if m[n].left == x then m[n].(left := y) else m[n].(right := y))
      else m[n]
  }

  lemma PlugCells(c: Ctx, t: Tree, nil: Node)
    requires Distinct(Plug(c, t))
    ensures CtxDistinct(c) && Distinct(t) && CtxIds(c) !! Ids(t)
    ensures Cells(Plug(c, t), nil).Keys == CtxIds(c) + Ids(t)
    ensures forall n :: n in Ids(t) ==> Cells(Plug(c, t), nil)[n] == CellOf(t, CtxPtr(c, nil), nil, n)
    ensures forall n :: n in CtxIds(c) ==> Cells(Plug(c, t), nil)[n] == CtxCellOf(c, Ptr(t, nil), nil, n)
  {
    PlugIds(c, t);
    forall n | n in CtxIds(c) + Ids(t)
      ensures n in Ids(Plug(c, t))
      ensures CellOf(Plug(c, t), nil, nil, n)
           == if n in Ids(t) then CellOf(t, CtxPtr(c, nil), nil, n) else CtxCellOf(c, Ptr(t, nil), nil, n)
    {
      PlugCell(c, t, nil, n);
    }
  }

  lemma RotLFits(c: Ctx, t: Tree, nil: Node)
    requires Distinct(Plug(c, t)) && nil !in Ids(Plug(c, t)) && t.N? && t.r.N?
    ensures CanRotL(Cells(Plug(c, t), nil), t.id, nil)
    ensures var m := Cells(Plug(c, t), nil);
      && m[t.id].right == t.r.id && m[t.r.id].left == Ptr(t.r.l, nil)
      && m[t.id].parent == CtxPtr(c, nil) && (m[t.id].parent == nil <==> c.Top?)
      && (!c.Top? ==> c.id in m && (m[c.id].left == t.id <==> c.InLeft?))
    ensures CtxPtr(c, nil) !in Ids(t) && Ids(t) >= {t.id, t.r.id} + (if t.r.l.N? then {t.r.l.id} else {})
  {
    PlugCells(c, t, nil);
    SubCell(t, CtxPtr(c, nil), nil);
    assert t.r.l.N? ==> t.r.l.id in Ids(t.r.l);
    assert !c.Top? ==> c.id in CtxIds(c);
  }

  lemma RotLIds(c: Ctx, t: Tree)
    requires Distinct(Plug(c, t)) && t.N? && t.r.N?
    ensures Ids(RotL(t)) == Ids(t)
    ensures Distinct(Plug(c, RotL(t))) && Ids(Plug(c, RotL(t))) == Ids(Plug(c, t))
  {
    PlugIds(c, t);
    PlugIds(c, RotL(t));
    assert Ids(t.r) == {t.r.id} + Ids(t.r.l) + Ids(t.r.r);
  }

  lemma RotLPlug(c: Ctx, t: Tree, nil: Node)
    requires Distinct(Plug(c, t)) && nil !in Ids(Plug(c, t)) && t.N? && t.r.N?
    requires CanRotL(Cells(Plug(c, t), nil), t.id, nil)
    ensures Cells(Plug(c, RotL(t)), nil) == RotLCells(Cells(Plug(c, t), nil), t.id, nil)
  {
    hide Cells, CellOf, CtxCellOf, Plug, Distinct, CtxDistinct, CtxIds, Ids;
    RotLFits(c, t, nil);
    RotLIds(c, t);
    PlugCells(c, t, nil);
    PlugCells(c, RotL(t), nil);
    var m, m' := Cells(Plug(c, t), nil), Cells(Plug(c, RotL(t)), nil);
    forall n | n in m
      ensures m'[n] == RotLCells(m, t.id, nil)[n]
    {
      if n in Ids(t) {
        RotLCell(t, CtxPtr(c, nil), nil, n);
      } else {
        RefillCell(c, t.id, t.r.id, nil, n);
      }
    }
  }

  /** The nodes that a right rotation at `x` relinks are there, and are different ones. */
  ghost predicate CanRotR(m: map<Node, Cell>, x: Node, nil: Node) {
    && nil !in m && x in m && m[x].left in m
    && var y, p := m[x].left, m[x].parent; var b := m[y].right;
    && y != x && b in m.Keys + {nil} && p in m.Keys + {nil}
    && b != x && b != y && p != x && p != y && (p == b ==> p == nil)
  }

  ghost function RotRCells(m: map<Node, Cell>, x: Node, nil: Node): map<Node, Cell>
    requires CanRotR(m, x, nil)
  {
    var y, p := m[x].left, m[x].parent;
    var b := m[y].right;
    map n | n in m ::
      if n == x then m[n].(left := b, parent := y)
      else if n == y then m[n].(right := x, parent := p)
      else if n == b then m[n].(parent := x)
      else if n == p then (if m[n].right == x then m[n].(right := y) else m[n].(left := y))
      else m[n]
  }

  lemma RotRFits(c: Ctx, t: Tree, nil: Node)
    requires Distinct(Plug(c, t)) && nil !in Ids(Plug(c, t)) && t.N? && t.l.N?
    ensures CanRotR(Cells(Plug(c, t), nil), t.id, nil)
    ensures var m := Cells(Plug(c, t), nil);
      && m[t.id].left == t.l.id && m[t.l.id].right == Ptr(t.l.r, nil)
      && m[t.id].parent == CtxPtr(c, nil) && (m[t.id].parent == nil <==> c.Top?)
      && (!c.Top? ==> c.id in m && (m[c.id].right == t.id <==> c.InRight?))
    ensures CtxPtr(c, nil) !in Ids(t) && Ids(t) >= {t.id, t.l.id} + (if t.l.r.N? then {t.l.r.id} else {})
  {
    PlugCells(c, t, nil);
    SubCell(t, CtxPtr(c, nil), nil);
    assert t.l.r.N? ==> t.l.r.id in Ids(t.l.r);
    assert !c.Top? ==> c.id in CtxIds(c);
  }

  lemma RotRIds(c: Ctx, t: Tree)
    requires Distinct(Plug(c, t)) && t.N? && t.l.N?
    ensures Ids(RotR(t)) == Ids(t)
    ensures Distinct(Plug(c, RotR(t))) && Ids(Plug(c, RotR(t))) == Ids(Plug(c, t))
  {
    PlugIds(c, t);
    PlugIds(c, RotR(t));
    assert Ids(t.l) == {t.l.id} + Ids(t.l.r) + Ids(t.l.l);
  }

  lemma RotRPlug(c: Ctx, t: Tree, nil: Node)
    requires Distinct(Plug(c, t)) && nil !in Ids(Plug(c, t)) && t.N? && t.l.N?
    requires CanRotR(Cells(Plug(c, t), nil), t.id, nil)
    ensures Cells(Plug(c, RotR(t)), nil) == RotRCells(Cells(Plug(c, t), nil), t.id, nil)
  {
    hide Cells, CellOf, CtxCellOf, Plug, Distinct, CtxDistinct, CtxIds, Ids;
    RotRFits(c, t, nil);
    RotRIds(c, t);
    PlugCells(c, t, nil);
    PlugCells(c, RotR(t), nil);
    var m, m' := Cells(Plug(c, t), nil), Cells(Plug(c, RotR(t)), nil);
    forall n | n in m
      ensures m'[n] == RotRCells(m, t.id, nil)[n]
    {
      if n in Ids(t) {
        RotRCell(t, CtxPtr(c, nil), nil, n);
      } else {
        RefillCell(c, t.id, t.l.id, nil, n);
      }
    }
  }

  // ---------------------------------------------------------------- other local changes

  /** Another colour or entry on the root of a subtree. */
  lemma RestorePlug(c: Ctx, t: Tree, color: Color, e: Entry, nil: Node)
    requires Distinct(Plug(c, t)) && t.N?
    ensures var t2 := N(t.id, color, e, t.l, t.r);
      && Distinct(Plug(c, t2)) && Ids(Plug(c, t2)) == Ids(Plug(c, t)) && t.id in Ids(Plug(c, t))
      && var m := Cells(Plug(c, t), nil);
         m[t.id].color == t.color && m[t.id].e == t.e
         && Cells(Plug(c, t2), nil) == m[t.id := m[t.id].(color := color, e := e)]
  {
    hide Cells, CtxCellOf, Plug, CtxDistinct, CtxIds;
    var t2 := N(t.id, color, e, t.l, t.r);
    PlugIds(c, t);
    PlugIds(c, t2);
    PlugCells(c, t, nil);
    PlugCells(c, t2, nil);
  }

  /** Node `y`, which has at most one child `x`, is cut out of the links. */
  ghost predicate CanSplice(m: map<Node, Cell>, x: Node, y: Node, nil: Node) {
    && nil !in m && y in m && x in m.Keys + {nil} && m[y].parent in m.Keys + {nil}
    && x != y && m[y].parent != y && (m[y].parent == x ==> x == nil)
  }

  ghost function SpliceCells(m: map<Node, Cell>, x: Node, y: Node, nil: Node): map<Node, Cell>
    requires CanSplice(m, x, y, nil)
  {
    map n | n in m && n != y ::
      if n == x then m[n].(parent := m[y].parent)
      else if n == m[y].parent then (if m[n].left == y then m[n].(left := x) else m[n].(right := x))
      else m[n]
  }

  /** The only child of a node, if any. */
  ghost function OnlyChild(t: Tree): Tree
    requires t.N?
  {
    if t.l.N? then t.l else t.r
  }

  lemma SpliceIds(c: Ctx, t: Tree)
    requires Distinct(Plug(c, t)) && t.N? && (t.l.E? || t.r.E?)
    ensures Distinct(Plug(c, OnlyChild(t))) && t.id in Ids(Plug(c, t))
    ensures Ids(Plug(c, OnlyChild(t))) == Ids(Plug(c, t)) - {t.id}
  {
    PlugIds(c, t);
    PlugIds(c, OnlyChild(t));
  }

  lemma SpliceFits(c: Ctx, t: Tree, nil: Node)
    requires Distinct(Plug(c, t)) && nil !in Ids(Plug(c, t)) && t.N? && (t.l.E? || t.r.E?)
    ensures CanSplice(Cells(Plug(c, t), nil), Ptr(OnlyChild(t), nil), t.id, nil)
    ensures var m := Cells(Plug(c, t), nil);
      && m[t.id].parent == CtxPtr(c, nil) && (m[t.id].parent == nil <==> c.Top?)
      && (!c.Top? ==> c.id in m && (m[c.id].left == t.id <==> c.InLeft?))
    ensures CtxPtr(c, nil) !in Ids(t) && t.id in Ids(t) && t.id !in CtxIds(c)
    ensures t.l.N? ==> t.l.id in Ids(t.l)
    ensures t.r.N? ==> t.r.id in Ids(t.r)
    ensures nil !in Ids(t.l) && nil !in Ids(t.r)
  {
    PlugCells(c, t, nil);
    SubCell(t, CtxPtr(c, nil), nil);
    assert !c.Top? ==> c.id in CtxIds(c);
  }

  lemma SplicePlug(c: Ctx, t: Tree, nil: Node)
    requires Distinct(Plug(c, t)) && nil !in Ids(Plug(c, t)) && t.N? && (t.l.E? || t.r.E?)
    requires CanSplice(Cells(Plug(c, t), nil), Ptr(OnlyChild(t), nil), t.id, nil)
    ensures Cells(Plug(c, OnlyChild(t)), nil) == SpliceCells(Cells(Plug(c, t), nil), Ptr(OnlyChild(t), nil), t.id, nil)
  {
    hide Cells, CtxCellOf, Plug, CtxDistinct, CtxIds;
    var s := OnlyChild(t);
    SpliceFits(c, t, nil);
    SpliceIds(c, t);
    PlugCells(c, t, nil);
    PlugCells(c, s, nil);
    var m, m' := Cells(Plug(c, t), nil), Cells(Plug(c, s), nil);
    forall n | n in m'
      ensures m'[n] == SpliceCells(m, Ptr(s, nil), t.id, nil)[n]
    {
      if n in Ids(s) {
        assert m[n] == CellOf(s, t.id, nil, n);
        ReparentCell(s, t.id, CtxPtr(c, nil), nil, n);
      } else {
        RefillCell(c, t.id, Ptr(s, nil), nil, n);
      }
    }
  }

  /** A new leaf `z` is hung into an empty position. */
  ghost function LinkCells(m: map<Node, Cell>, z: Node, k: Cell, left: bool, nil: Node): map<Node, Cell>
    requires k.parent in m.Keys + {nil}
  {
    var m1 := if k.parent == nil then m
              else if left then m[k.parent := m[k.parent].(left := z)]
              else m[k.parent := m[k.parent].(right := z)];
    m1[z := k]
  }

  lemma LinkPlug(c: Ctx, z: Node, color: Color, e: Entry, nil: Node)
    requires Distinct(Plug(c, E)) && nil !in Ids(Plug(c, E)) && z !in Ids(Plug(c, E))
    ensures var t := N(z, color, e, E, E);
      && Distinct(Plug(c, t)) && Ids(Plug(c, t)) == Ids(Plug(c, E)) + {z}
      && CtxPtr(c, nil) in Ids(Plug(c, E)) + {nil} && (CtxPtr(c, nil) == nil <==> c.Top?)
      && Cells(Plug(c, t), nil) == LinkCells(Cells(Plug(c, E), nil), z, Cell(color, e, nil, nil, CtxPtr(c, nil)),
         c.InLeft?, nil)
  {
    hide Cells, CtxCellOf, Plug, CtxDistinct;
    var t := N(z, color, e, E, E);
    PlugIds(c, E);
    PlugIds(c, t);
    PlugCells(c, E, nil);
    PlugCells(c, t, nil);
    assert !c.Top? ==> c.id in CtxIds(c);
    var m, m' := Cells(Plug(c, E), nil), Cells(Plug(c, t), nil);
    var m2 := LinkCells(m, z, Cell(color, e, nil, nil, CtxPtr(c, nil)), c.InLeft?, nil);
    forall n | n in m'
      ensures m'[n] == m2[n]
    {
      if n != z {
        RefillCell(c, nil, z, nil, n);
      }
    }
    assert m'.Keys == m2.Keys;
  }

  // ---------------------------------------------------------------- order

  lemma TurnOrder<T>(a: seq<T>, x: T, b: seq<T>, y: T, c: seq<T>)
    ensures a + [x] + (b + [y] + c) == (a + [x] + b) + [y] + c
  {
  }

  lemma RotLEntries(c: Ctx, t: Tree)
    requires t.N? && t.r.N?
    ensures Entries(Plug(c, RotL(t))) == Entries(Plug(c, t))
  {
    PlugEntries(c, t);
    PlugEntries(c, RotL(t));
    assert Entries(RotL(t)) == Entries(t) by {
      var a, b, d := Entries(t.l), Entries(t.r.l), Entries(t.r.r);
      assert Entries(t.r) == b + [t.r.e] + d;
      assert Entries(RotL(t).l) == a + [t.e] + b;
      TurnOrder(a, t.e, b, t.r.e, d);
    }
  }

  lemma RotREntries(c: Ctx, t: Tree)
    requires t.N? && t.l.N?
    ensures Entries(Plug(c, RotR(t))) == Entries(Plug(c, t))
  {
    RotLEntries(c, RotR(t));
    assert RotL(RotR(t)) == t;
  }

  /** The search path: keys left of the hole are smaller, keys right of it are greater. */
  ghost predicate OnPath(c: Ctx, key: int) {
    KeysBelow(Before(c), key) && KeysAbove(After(c), key)
  }

  lemma LinkEntries(c: Ctx, z: Node, color: Color, e: Entry)
    requires Sorted(Entries(Plug(c, E))) && OnPath(c, e.key)
    ensures var t := N(z, color, e, E, E);
      && Sorted(Entries(Plug(c, t)))
      && Bindings(Plug(c, t)) == Bindings(Plug(c, E)) + {e}
  {
    var t := N(z, color, e, E, E);
    PlugEntries(c, E);
    PlugEntries(c, t);
    assert Before(c) + Entries(E) + After(c) == Before(c) + After(c);
    assert Entries(t) == [e];
    SortedPut(Before(c), e, After(c));
  }

  lemma AroundEntry<T>(a: seq<T>, b: seq<T>, x: T, c: seq<T>, d: seq<T>)
    ensures a + (b + [x] + c) + d == (a + b) + [x] + (c + d)
  {
  }

  lemma SortedStep(a: seq<Entry>, l: seq<Entry>, e: Entry, r: seq<Entry>, b: seq<Entry>, key: int)
    requires Sorted(a + (l + [e] + r) + b)
    ensures key <= e.key ==> KeysAbove(r, key)
    ensures key >= e.key ==> KeysBelow(l, key)
    ensures e in a + (l + [e] + r) + b
  {
    var m := l + [e] + r;
    var s := a + m + b;
    assert m[|l|] == e && s[|a| + |l|] == e;
    forall x | x in l
      ensures x.key < e.key
    {
      var i :| 0 <= i < |l| && l[i] == x;
      assert m[i] == x && s[|a| + i] == x;
    }
    forall x | x in r
      ensures e.key < x.key
    {
      var i :| 0 <= i < |r| && r[i] == x;
      assert m[|l| + 1 + i] == x && s[|a| + |l| + 1 + i] == x;
    }
  }

  lemma Descend(c: Ctx, t: Tree, key: int)
    requires Sorted(Entries(Plug(c, t))) && t.N? && OnPath(c, key)
    ensures key < t.e.key ==> OnPath(InLeft(t.id, t.color, t.e, t.r, c), key)
    ensures key > t.e.key ==> OnPath(InRight(t.id, t.color, t.e, t.l, c), key)
    ensures t.e in Bindings(Plug(c, t))
  {
    PlugEntries(c, t);
    SortedStep(Before(c), Entries(t.l), t.e, Entries(t.r), After(c), key);
  }

  lemma NotFound(c: Ctx, key: int)
    requires OnPath(c, key)
    ensures forall e :: e in Bindings(Plug(c, E)) ==> e.key != key
  {
    PlugEntries(c, E);
  }

  // ---------------------------------------------------------------- removal and neighbours

  lemma RemoveEntry(a: seq<Entry>, e: Entry, b: seq<Entry>)
    requires Sorted(a + [e] + b)
    ensures Sorted(a + b)
    ensures (set x | x in a + b) == (set x | x in a + [e] + b) - {e}
  {
    SortedTake(a, e, b);
  }

  lemma SpliceEntries(c: Ctx, t: Tree)
    requires Sorted(Entries(Plug(c, t))) && t.N? && (t.l.E? || t.r.E?)
    ensures Sorted(Entries(Plug(c, OnlyChild(t))))
    ensures Bindings(Plug(c, OnlyChild(t))) == Bindings(Plug(c, t)) - {t.e}
  {
    var s := OnlyChild(t);
    PlugEntries(c, t);
    PlugEntries(c, s);
    var a, b := Before(c) + Entries(t.l), Entries(t.r) + After(c);
    assert Entries(Plug(c, t)) == a + [t.e] + b;
    assert Entries(Plug(c, s)) == a + b;
    RemoveEntry(a, t.e, b);
  }

  /**
   Node `z` holds `tz` at `c`; its right subtree is `Plug(inner, ty)` with `ty` leftmost.
   Cutting out `ty` and moving its entry to `z` removes exactly the entry of `z`.
   */
  lemma ReplaceEntries(c: Ctx, tz: Tree, inner: Ctx, ty: Tree)
    requires tz.N? && ty.N? && ty.l.E? && tz.r == Plug(inner, ty) && Before(inner) == []
    requires Sorted(Entries(Plug(c, tz)))
    ensures var after := Plug(c, N(tz.id, tz.color, ty.e, tz.l, Plug(inner, ty.r)));
      && Sorted(Entries(after)) && Bindings(after) == Bindings(Plug(c, tz)) - {tz.e}
  {
    var sz := N(tz.id, tz.color, ty.e, tz.l, Plug(inner, ty.r));
    PlugEntries(c, tz);
    PlugEntries(c, sz);
    PlugEntries(inner, ty);
    PlugEntries(inner, ty.r);
    assert Entries(ty) == [ty.e] + Entries(ty.r);
    assert Entries(tz.r) == [ty.e] + Entries(sz.r);
    hide Plug, Before, After;
    ReplaceSeq(Before(c), Entries(tz.l), tz.e, ty.e, Entries(sz.r), After(c));
  }

  lemma ReplaceSeq(a: seq<Entry>, l: seq<Entry>, z: Entry, y: Entry, r: seq<Entry>, b: seq<Entry>)
    requires Sorted(a + (l + [z] + ([y] + r)) + b)
    ensures Sorted(a + (l + [y] + r) + b)
    ensures (set x | x in a + (l + [y] + r) + b) == (set x | x in a + (l + [z] + ([y] + r)) + b) - {z}
  {
    assert a + (l + [z] + ([y] + r)) + b == (a + l) + [z] + ([y] + r + b);
    assert a + (l + [y] + r) + b == (a + l) + ([y] + r + b);
    RemoveEntry(a + l, z, [y] + r + b);
  }

  /** `t` at `c` and `s` at `d` are neighbours in the order of entries. */
  ghost predicate Follows(c: Ctx, t: Tree, d: Ctx, s: Tree) {
    t.N? && s.N? && Before(d) + Entries(s.l) == Before(c) + Entries(t.l) + [t.e]
  }

  lemma FollowsKeys(c: Ctx, t: Tree, d: Ctx, s: Tree)
    requires Plug(c, t) == Plug(d, s) && Follows(c, t, d, s) && Sorted(Entries(Plug(c, t)))
    ensures t.e.key < s.e.key
    ensures forall e :: e in Bindings(Plug(c, t)) ==> e.key <= t.e.key || s.e.key <= e.key
  {
    PlugEntries(d, s);
    AroundEntry(Before(d), Entries(s.l), s.e, Entries(s.r), After(d));
    hide Plug, Before, After, Sorted;
    NeighbourKeys(Before(c) + Entries(t.l), t.e, s.e, Entries(s.r) + After(d));
  }

  lemma NeighbourKeys(a: seq<Entry>, x: Entry, y: Entry, b: seq<Entry>)
    requires Sorted((a + [x]) + [y] + b)
    ensures x.key < y.key
    ensures forall e :: e in (a + [x]) + [y] + b ==> e.key <= x.key || y.key <= e.key
  {
    var all := (a + [x]) + [y] + b;
    assert all[|a|] == x && all[|a| + 1] == y;
    forall e | e in all
      ensures e.key <= x.key || y.key <= e.key
    {
      var i :| 0 <= i < |all| && all[i] == e;
      if i < |a| {
        assert all[i].key < all[|a|].key;
      } else if i > |a| + 1 {
        assert all[|a| + 1].key < all[i].key;
      }
    }
  }

  lemma LastKeys(c: Ctx, t: Tree)
    requires t.N? && t.r.E? && After(c) == [] && Sorted(Entries(Plug(c, t)))
    ensures forall e :: e in Bindings(Plug(c, t)) ==> e.key <= t.e.key
  {
    PlugEntries(c, t);
    var all := Entries(Plug(c, t));
    assert Entries(t.r) == [];
    hide Plug, Before, After, Entries, Sorted;
    assert all == Before(c) + Entries(t.l) + [t.e];
    LastGreatest(all);
  }

  lemma LastGreatest(all: seq<Entry>)
    requires Sorted(all) && all != []
    ensures forall e :: e in all ==> e.key <= all[|all| - 1].key
  {
  }
}
