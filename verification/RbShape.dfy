/**
 The shape of a red-black tree as a value, and the laws of that value.

 A heap of linked nodes is described by a ghost `Tree` that carries the identity of each
 node beside the fields it stores. A position inside the tree is a pair of a subtree and a
 context (`Ctx`): the path from the subtree back to the root, with everything that hangs
 off that path. Loops that climb or descend parent links move along that path.
 */
module RbShape {

  datatype Color = Red | Black

  /** One node as allocated by the program; every link is a real node, the sentinel included. */
  class Node {
    var color: Color
    var right: Node
    var left: Node
    var parent: Node
    var key: int
    var value: int

    constructor (key: int, value: int)
      ensures this.key == key && this.value == value && color == Black
    {
      this.color := Black;
      this.left, this.right, this.parent := this, this, this;
      this.key, this.value := key, value;
    }
  }

  datatype Entry = Entry(key: int, value: int)

  datatype Tree =
    | E
    | N(id: Node, color: Color, e: Entry, l: Tree, r: Tree)

  datatype Ctx =
    | Top
    | InLeft(id: Node, color: Color, e: Entry, r: Tree, up: Ctx)
    | InRight(id: Node, color: Color, e: Entry, l: Tree, up: Ctx)

  // ---------------------------------------------------------------- contents

  ghost function Entries(t: Tree): seq<Entry> {
    match t
    case E => []
    case N(_, _, e, l, r) => Entries(l) + [e] + Entries(r)
  }

  ghost function Ids(t: Tree): set<Node> {
    match t
    case E => {}
    case N(id, _, _, l, r) => {id} + Ids(l) + Ids(r)
  }

  /** No node occurs twice. */
  ghost predicate Distinct(t: Tree) {
    match t
    case E => true
    case N(id, _, _, l, r) =>
      && id !in Ids(l) && id !in Ids(r) && Ids(l) !! Ids(r)
      && Distinct(l) && Distinct(r)
  }

  ghost predicate Sorted(s: seq<Entry>) {
    forall i, j :: 0 <= i < j < |s| ==> s[i].key < s[j].key
  }

  ghost predicate KeysBelow(s: seq<Entry>, key: int) {
    forall e :: e in s ==> e.key < key
  }

  ghost predicate KeysAbove(s: seq<Entry>, key: int) {
    forall e :: e in s ==> key < e.key
  }

  lemma SortedTake(a: seq<Entry>, e: Entry, b: seq<Entry>)
    requires Sorted(a + [e] + b)
    ensures Sorted(a + b) && KeysBelow(a, e.key) && KeysAbove(b, e.key)
  {
    var s := a + [e] + b;
    var at := (i: int) => if i < |a| then i else i + 1;
    assert forall i :: 0 <= i < |a + b| ==> (a + b)[i] == s[at(i)];
    assert s[|a|] == e;
    assert forall i :: 0 <= i < |a| ==> s[i] == a[i];
    assert forall i :: 0 <= i < |b| ==> s[|a| + 1 + i] == b[i];
  }

  lemma SortedPut(a: seq<Entry>, e: Entry, b: seq<Entry>)
    requires Sorted(a + b) && KeysBelow(a, e.key) && KeysAbove(b, e.key)
    ensures Sorted(a + [e] + b)
  {
    var s := a + [e] + b;
    forall i, j | 0 <= i < j < |s|
      ensures s[i].key < s[j].key
    {
      if i == |a| {
        assert s[j] in b;
      } else if j == |a| {
        assert s[i] in a;
      } else {
        assert s[i] == (a + b)[if i < |a| then i else i - 1];
        assert s[j] == (a + b)[if j < |a| then j else j - 1];
      }
    }
  }

  /** The bindings of a tree; sorted entries make them a map. */
  ghost function Bindings(t: Tree): set<Entry> {
    set e | e in Entries(t)
  }

  ghost function Size(t: Tree): nat {
    match t
    case E => 0
    case N(_, _, _, l, r) => Size(l) + 1 + Size(r)
  }

  ghost function Height(t: Tree): nat {
    match t
    case E => 0
    case N(_, _, _, l, r) => 1 + if Height(l) < Height(r) then Height(r) else Height(l)
  }

  // ---------------------------------------------------------------- contexts

  ghost function Plug(c: Ctx, t: Tree): Tree
    decreases c
  {
    match c
    case Top => t
    case InLeft(id, color, e, r, up) => Plug(up, N(id, color, e, t, r))
    case InRight(id, color, e, l, up) => Plug(up, N(id, color, e, l, t))
  }

  ghost function Depth(c: Ctx): nat {
    if c.Top? then 0 else 1 + Depth(c.up)
  }

  ghost function CtxIds(c: Ctx): set<Node> {
    match c
    case Top => {}
    case InLeft(id, _, _, r, up) => {id} + Ids(r) + CtxIds(up)
    case InRight(id, _, _, l, up) => {id} + Ids(l) + CtxIds(up)
  }

  ghost predicate CtxDistinct(c: Ctx) {
    match c
    case Top => true
    case InLeft(id, _, _, r, up) =>
      && Distinct(r) && id !in Ids(r) && id !in CtxIds(up) && Ids(r) !! CtxIds(up) && CtxDistinct(up)
    case InRight(id, _, _, l, up) =>
      && Distinct(l) && id !in Ids(l) && id !in CtxIds(up) && Ids(l) !! CtxIds(up) && CtxDistinct(up)
  }

  /** Entries to the left of the hole, and to its right. */
  ghost function Before(c: Ctx): seq<Entry> {
    match c
    case Top => []
    case InLeft(_, _, _, _, up) => Before(up)
    case InRight(_, _, e, l, up) => Before(up) + Entries(l) + [e]
  }

  ghost function After(c: Ctx): seq<Entry> {
    match c
    case Top => []
    case InLeft(_, _, e, r, up) => [e] + Entries(r) + After(up)
    case InRight(_, _, _, _, up) => After(up)
  }

  lemma {:induction false} PlugEntries(c: Ctx, t: Tree)
    ensures Entries(Plug(c, t)) == Before(c) + Entries(t) + After(c)
    decreases c
  {
    match c
    case Top =>
    case InLeft(id, color, e, r, up) =>
      PlugEntries(up, N(id, color, e, t, r));
      Regroup(Before(up), Entries(t), [e] + Entries(r), After(up));
      assert Entries(t) + [e] + Entries(r) == Entries(t) + ([e] + Entries(r));
    case InRight(id, color, e, l, up) =>
      PlugEntries(up, N(id, color, e, l, t));
      Regroup(Before(up), Entries(l) + [e], Entries(t), After(up));
      assert Before(up) + Entries(l) + [e] == Before(up) + (Entries(l) + [e]);
  }

  lemma Regroup<T>(a: seq<T>, b: seq<T>, c: seq<T>, d: seq<T>)
    ensures a + (b + c) + d == (a + b) + c + d == a + b + (c + d)
  {
  }

  lemma {:induction false} PlugIds(c: Ctx, t: Tree)
    ensures Ids(Plug(c, t)) == CtxIds(c) + Ids(t)
    ensures Distinct(Plug(c, t)) <==> CtxDistinct(c) && Distinct(t) && CtxIds(c) !! Ids(t)
    decreases c
  {
    match c
    case Top =>
    case InLeft(id, color, e, r, up) =>
      PlugIds(up, N(id, color, e, t, r));
    case InRight(id, color, e, l, up) =>
      PlugIds(up, N(id, color, e, l, t));
  }

  /** Joins two paths: `inner` ends where `outer` begins. */
  ghost function Comp(inner: Ctx, outer: Ctx): Ctx {
    match inner
    case Top => outer
    case InLeft(id, color, e, r, up) => InLeft(id, color, e, r, Comp(up, outer))
    case InRight(id, color, e, l, up) => InRight(id, color, e, l, Comp(up, outer))
  }

  lemma {:induction false} PlugComp(inner: Ctx, outer: Ctx, t: Tree)
    ensures Plug(Comp(inner, outer), t) == Plug(outer, Plug(inner, t))
    decreases inner
  {
    match inner
    case Top =>
    case InLeft(id, color, e, r, up) => PlugComp(up, outer, N(id, color, e, t, r));
    case InRight(id, color, e, l, up) => PlugComp(up, outer, N(id, color, e, l, t));
  }

  // ---------------------------------------------------------------- colours

  ghost predicate IsRed(t: Tree) { t.N? && t.color == Red }

  ghost predicate CtxIsRed(c: Ctx) { !c.Top? && c.color == Red }

  ghost function Weight(color: Color): nat { if color == Black then 1 else 0 }

  /** Black nodes on the leftmost path; the sentinel leaves are not counted. */
  ghost function Bh(t: Tree): nat {
    match t
    case E => 0
    case N(_, color, _, l, _) => Bh(l) + Weight(color)
  }

  /** No red node has a red child, and every path to a leaf meets as many black nodes. */
  ghost predicate Balanced(t: Tree) {
    match t
    case E => true
    case N(_, color, _, l, r) =>
      && Balanced(l) && Balanced(r) && Bh(l) == Bh(r)
      && (color == Red ==> !IsRed(l) && !IsRed(r))
  }

  /** The surroundings of a hole are in order if the hole is filled to black height `h`. */
  ghost predicate CtxBalanced(c: Ctx, h: nat) {
    match c
    case Top => true
    case InLeft(_, color, _, r, up) =>
      && Balanced(r) && Bh(r) == h && (color == Red ==> !IsRed(r) && !CtxIsRed(up))
      && CtxBalanced(up, h + Weight(color))
    case InRight(_, color, _, l, up) =>
      && Balanced(l) && Bh(l) == h && (color == Red ==> !IsRed(l) && !CtxIsRed(up))
      && CtxBalanced(up, h + Weight(color))
  }

  /** The outermost node of the path is black. */
  ghost predicate RootBlack(c: Ctx) {
    c.Top? || (if c.up.Top? then c.color == Black else RootBlack(c.up))
  }

  lemma {:induction false} PlugBalanced(c: Ctx, t: Tree)
    ensures Balanced(Plug(c, t)) <==> Balanced(t) && CtxBalanced(c, Bh(t)) && (CtxIsRed(c) ==> !IsRed(t))
    decreases c
  {
    match c
    case Top =>
    case InLeft(id, color, e, r, up) =>
      var u := N(id, color, e, t, r);
      PlugBalanced(up, u);
      assert Plug(c, t) == Plug(up, u);
      assert Balanced(u) <==> Balanced(t) && Balanced(r) && Bh(t) == Bh(r) && (color == Red ==> !IsRed(t) && !IsRed(r));
      hide Balanced, Plug;
    case InRight(id, color, e, l, up) =>
      var u := N(id, color, e, l, t);
      PlugBalanced(up, u);
      assert Plug(c, t) == Plug(up, u);
      assert Balanced(u) <==> Balanced(l) && Balanced(t) && Bh(t) == Bh(l) && (color == Red ==> !IsRed(t) && !IsRed(l));
      hide Balanced, Plug;
  }

  lemma {:induction false} PlugRootBlack(c: Ctx, t: Tree)
    ensures !IsRed(Plug(c, t)) <==> RootBlack(c) && (c.Top? ==> !IsRed(t))
    decreases c
  {
    match c
    case Top =>
    case InLeft(id, color, e, r, up) => PlugRootBlack(up, N(id, color, e, t, r));
    case InRight(id, color, e, l, up) => PlugRootBlack(up, N(id, color, e, l, t));
  }

  /** The position of node `z` below `c`. */
  ghost function Find(c: Ctx, t: Tree, z: Node): (p: (Ctx, Tree))
    requires z in Ids(t)
    ensures Plug(p.0, p.1) == Plug(c, t) && p.1.N? && p.1.id == z
    decreases t
  {
    if z == t.id then (c, t)
    else if z in Ids(t.l) then Find(InLeft(t.id, t.color, t.e, t.r, c), t.l, z)
    else Find(InRight(t.id, t.color, t.e, t.l, c), t.r, z)
  }

  /** Only the entry stored on one node of the path differs: colours are blind to it. */
  lemma {:induction false} CompBalanced(inner: Ctx, outer: Ctx, other: Ctx, h: nat)
    requires !outer.Top? && !other.Top?
    requires outer.up == other.up && outer.color == other.color
    requires (outer.InLeft? && other.InLeft? && outer.r == other.r)
            || (outer.InRight? && other.InRight? && outer.l == other.l)
    ensures CtxBalanced(Comp(inner, outer), h) == CtxBalanced(Comp(inner, other), h)
    ensures CtxIsRed(Comp(inner, outer)) == CtxIsRed(Comp(inner, other))
    ensures RootBlack(Comp(inner, outer)) == RootBlack(Comp(inner, other))
    decreases inner
  {
    if !inner.Top? {
      CompBalanced(inner.up, outer, other, h + Weight(inner.color));
    }
  }
}
