/**
 The tail queue with its pointers to pointers. A head and the entry of an element have the same
 layout: a pointer to the next element, and the address of a cell that holds such a pointer.
 Since that cell is the first field of a head or an entry, its address is the object itself:
 `loc` of an element is whatever points at it, `loc` of the head is the last one that points at
 nothing, and reading through a `loc` is reading `next` of that object.
 */
module TailQueue {

  class Entry {
    var next: Entry?
    var loc: Entry?

    constructor ()
      ensures next == null && loc == null
    {
      next, loc := null, null;
    }
  }

  /** nodes[0] is the head, the others are the elements in order. */
  ghost predicate Distinct(nodes: seq<Entry>) {
    forall i, j :: 0 <= i < j < |nodes| ==> nodes[i] != nodes[j]
  }

  ghost function NextOf(nodes: seq<Entry>, i: nat): Entry? {
    if i + 1 < |nodes| then nodes[i + 1] else null
  }

  /** What points at node i; at the head, the place where the next element would be appended. */
  ghost function LocOf(nodes: seq<Entry>, i: nat): Entry
    requires i < |nodes|
  {
    if i > 0 then nodes[i - 1] else nodes[|nodes| - 1]
  }

  ghost predicate IsQueue(nodes: seq<Entry>)
    reads nodes
  {
    && |nodes| > 0 && Distinct(nodes)
    && (forall i :: 0 <= i < |nodes| ==> nodes[i].next == NextOf(nodes, i))
    && (forall i :: 0 <= i < |nodes| ==> nodes[i].loc == LocOf(nodes, i))
  }

  /** nodes with elm after position i. */
  ghost function Inserted(nodes: seq<Entry>, i: nat, elm: Entry): seq<Entry>
    requires i < |nodes|
  {
    nodes[..i + 1] + [elm] + nodes[i + 1..]
  }

  ghost function Removed(nodes: seq<Entry>, i: nat): seq<Entry>
    requires i < |nodes|
  {
    nodes[..i] + nodes[i + 1..]
  }

  /** Node t after an insertion, what follows it and what points at it. */
  lemma InsertedAt(nodes: seq<Entry>, i: nat, elm: Entry, t: nat)
    requires i < |nodes| && t <= |nodes|
    ensures var m := Inserted(nodes, i, elm);
      && |m| == |nodes| + 1
      && m[t] == (if t <= i then nodes[t] else if t == i + 1 then elm else nodes[t - 1])
      && NextOf(m, t) == (if t < i then NextOf(nodes, t) else if t == i then elm else NextOf(nodes, t - 1))
      && LocOf(m, t) == (if t == 0 && i == |nodes| - 1 then elm else if t <= i then LocOf(nodes, t)
                         else if t == i + 1 then nodes[i] else if t == i + 2 then elm else LocOf(nodes, t - 1))
  {
  }

  lemma InsertedDistinct(nodes: seq<Entry>, i: nat, elm: Entry)
    requires Distinct(nodes) && i < |nodes| && elm !in nodes
    ensures Distinct(Inserted(nodes, i, elm))
  {
    var m := Inserted(nodes, i, elm);
    forall a, b | 0 <= a < b < |m|
      ensures m[a] != m[b]
    {
      InsertedAt(nodes, i, elm, a);
      InsertedAt(nodes, i, elm, b);
      hide NextOf, LocOf, Inserted;
    }
  }

  /** What the four stores of an insertion after node i leave. */
  lemma InsertedQueue(nodes: seq<Entry>, i: nat, elm: Entry)
    requires |nodes| > 0 && Distinct(nodes) && i < |nodes| && elm !in nodes
    requires elm.next == NextOf(nodes, i) && elm.loc == nodes[i]
    requires forall t :: 0 <= t < |nodes| ==> nodes[t].next == if t == i then elm else NextOf(nodes, t)
    requires forall t :: 0 <= t < |nodes| ==>
               nodes[t].loc == if t == i + 1 || (t == 0 && i == |nodes| - 1) then elm else LocOf(nodes, t)
    ensures IsQueue(Inserted(nodes, i, elm))
  {
    InsertedDistinct(nodes, i, elm);
    var m := Inserted(nodes, i, elm);
    hide NextOf, LocOf, Distinct;
    forall t | 0 <= t < |m|
      ensures m[t].next == NextOf(m, t) && m[t].loc == LocOf(m, t)
    {
      InsertedAt(nodes, i, elm, t);
      hide Inserted;
    }
  }

  lemma RemovedAt(nodes: seq<Entry>, i: nat, t: nat)
    requires 1 <= i < |nodes| && t < |nodes| - 1
    ensures var m := Removed(nodes, i);
      && |m| == |nodes| - 1
      && m[t] == (if t < i then nodes[t] else nodes[t + 1])
      && NextOf(m, t) == (if t < i - 1 then NextOf(nodes, t) else NextOf(nodes, t + 1))
      && LocOf(m, t) == (if t == i || (t == 0 && i == |nodes| - 1) then nodes[i - 1]
         else if t < i then LocOf(nodes, t) else LocOf(nodes, t + 1))
  {
  }

  lemma RemovedDistinct(nodes: seq<Entry>, i: nat)
    requires Distinct(nodes) && 1 <= i < |nodes|
    ensures Distinct(Removed(nodes, i))
  {
    var m := Removed(nodes, i);
    forall a, b | 0 <= a < b < |m|
      ensures m[a] != m[b]
    {
      RemovedAt(nodes, i, a);
      RemovedAt(nodes, i, b);
      hide NextOf, LocOf, Removed;
    }
  }

  /** What the two stores of a removal of node i leave. */
  lemma RemovedQueue(nodes: seq<Entry>, i: nat)
    requires Distinct(nodes) && 1 <= i < |nodes|
    requires forall t :: 0 <= t < |nodes| ==> nodes[t].next == if t == i - 1 then NextOf(nodes, i) else NextOf(nodes, t)
    requires forall t :: 0 <= t < |nodes| ==>
               nodes[t].loc == if t == i + 1 || (t == 0 && i == |nodes| - 1) then nodes[i - 1] else LocOf(nodes, t)
    ensures IsQueue(Removed(nodes, i))
  {
    var m := Removed(nodes, i);
    RemovedAt(nodes, i, 0);
    RemovedDistinct(nodes, i);
    hide NextOf, LocOf, Distinct;
    forall t | 0 <= t < |m|
      ensures m[t].next == NextOf(m, t) && m[t].loc == LocOf(m, t)
    {
      RemovedAt(nodes, i, t);
      hide Removed;
    }
  }

  lemma JoinedAt(a: seq<Entry>, b: seq<Entry>, t: nat)
    requires |a| > 0 && |b| > 1 && t < |a| + |b| - 1
    ensures var m := a + b[1..];
      && |m| == |a| + |b| - 1
      && m[t] == (if t < |a| then a[t] else b[t - |a| + 1])
      && NextOf(m, t) == (if t < |a| - 1 then NextOf(a, t) else if t == |a| - 1 then b[1] else NextOf(b, t - |a| + 1))
      && LocOf(m, t) == (if t == 0 then b[|b| - 1] else if t < |a| then LocOf(a, t)
                         else if t == |a| then a[|a| - 1] else LocOf(b, t - |a| + 1))
  {
  }

  lemma JoinedDistinct(a: seq<Entry>, b: seq<Entry>)
    requires |a| > 0 && |b| > 1 && Distinct(a) && Distinct(b) && forall x :: x in a ==> x !in b
    ensures Distinct(a + b[1..])
  {
    var m := a + b[1..];
    forall x, y | 0 <= x < y < |m|
      ensures m[x] != m[y]
    {
      JoinedAt(a, b, x);
      JoinedAt(a, b, y);
      hide NextOf, LocOf;
      assert x < |a| ==> m[x] in a;
      assert y >= |a| ==> m[y] in b;
    }
  }

  /** What the stores of a concatenation leave. */
  lemma JoinedQueue(a: seq<Entry>, b: seq<Entry>)
    requires |a| > 0 && |b| > 1 && Distinct(a) && Distinct(b) && forall x :: x in a ==> x !in b
    requires forall t :: 0 <= t < |a| ==> a[t].next == if t == |a| - 1 then b[1] else NextOf(a, t)
    requires forall t :: 0 <= t < |a| ==> a[t].loc == if t == 0 then b[|b| - 1] else LocOf(a, t)
    requires forall t :: 1 <= t < |b| ==> b[t].next == NextOf(b, t)
    requires forall t :: 1 <= t < |b| ==> b[t].loc == if t == 1 then a[|a| - 1] else LocOf(b, t)
    ensures IsQueue(a + b[1..])
  {
    var m := a + b[1..];
    JoinedDistinct(a, b);
    hide NextOf, LocOf, Distinct;
    forall t | 0 <= t < |m|
      ensures m[t].next == NextOf(m, t) && m[t].loc == LocOf(m, t)
    {
      JoinedAt(a, b, t);
    }
  }

  /** TAILQ_INIT */
  method Init(head: Entry)
    modifies head
    ensures IsQueue([head])
  {
    head.next := null;
    head.loc := head;
  }

  /** TAILQ_INSERT_HEAD */
  method InsertHead(head: Entry, elm: Entry, ghost nodes: seq<Entry>)
    requires IsQueue(nodes) && nodes[0] == head && elm !in nodes
    modifies nodes, elm
    ensures IsQueue(Inserted(nodes, 0, elm))
  {
    elm.next := head.next;
    if elm.next != null {
      head.next.loc := elm;
    } else {
      head.loc := elm;
    }
    head.next := elm;
    elm.loc := head;
    hide Inserted;
    InsertedQueue(nodes, 0, elm);
  }

  /** TAILQ_INSERT_TAIL */
  method InsertTail(head: Entry, elm: Entry, ghost nodes: seq<Entry>)
    requires IsQueue(nodes) && nodes[0] == head && elm !in nodes
    modifies nodes, elm
    ensures IsQueue(nodes + [elm])
  {
    assert Inserted(nodes, |nodes| - 1, elm) == nodes + [elm];
    hide Inserted;
    elm.next := null;
    elm.loc := head.loc;
    head.loc.next := elm;
    head.loc := elm;
    InsertedQueue(nodes, |nodes| - 1, elm);
  }

  /** TAILQ_INSERT_AFTER */
  method InsertAfter(head: Entry, listelm: Entry, elm: Entry, ghost nodes: seq<Entry>, ghost i: nat)
    requires IsQueue(nodes) && nodes[0] == head && elm !in nodes && 1 <= i < |nodes| && nodes[i] == listelm
    modifies nodes, elm
    ensures IsQueue(Inserted(nodes, i, elm))
  {
    elm.next := listelm.next;
    if elm.next != null {
      elm.next.loc := elm;
    } else {
      head.loc := elm;
    }
    listelm.next := elm;
    elm.loc := listelm;
    hide Inserted;
    InsertedQueue(nodes, i, elm);
  }

  /** TAILQ_INSERT_BEFORE, which does not need the head. */
  method InsertBefore(listelm: Entry, elm: Entry, ghost nodes: seq<Entry>, ghost i: nat)
    requires IsQueue(nodes) && elm !in nodes && 1 <= i < |nodes| && nodes[i] == listelm
    modifies nodes, elm
    ensures IsQueue(Inserted(nodes, i - 1, elm))
  {
    elm.loc := listelm.loc;
    elm.next := listelm;
    listelm.loc.next := elm;
    listelm.loc := elm;
    hide Inserted;
    InsertedQueue(nodes, i - 1, elm);
  }

  /** TAILQ_REMOVE */
  method Remove(head: Entry, elm: Entry, ghost nodes: seq<Entry>, ghost i: nat)
    requires IsQueue(nodes) && nodes[0] == head && 1 <= i < |nodes| && nodes[i] == elm
    modifies nodes
    ensures IsQueue(Removed(nodes, i))
  {
    if elm.next != null {
      elm.next.loc := elm.loc;
    } else {
      head.loc := elm.loc;
    }
    elm.loc.next := elm.next;
    hide Removed;
    RemovedQueue(nodes, i);
  }

  /** TAILQ_CONCAT: the elements of the second queue follow those of the first, and it is empty then. */
  method Concat(head1: Entry, head2: Entry, ghost nodes1: seq<Entry>, ghost nodes2: seq<Entry>)
    requires IsQueue(nodes1) && IsQueue(nodes2) && nodes1[0] == head1 && nodes2[0] == head2
    requires forall x :: x in nodes1 ==> x !in nodes2
    modifies nodes1, nodes2
    ensures IsQueue(nodes1 + nodes2[1..]) && IsQueue([head2])
  {
    forall i, j | 0 <= i < |nodes1| && 0 <= j < |nodes2|
      ensures nodes1[i] != nodes2[j]
    {
      assert nodes1[i] in nodes1 && nodes2[j] in nodes2;
    }
    if head2.next != null {
      head1.loc.next := head2.next;
      head2.next.loc := head1.loc;
      head1.loc := head2.loc;
      head2.next := null;
      head2.loc := head2;
      JoinedQueue(nodes1, nodes2);
    } else {
      assert nodes1 + nodes2[1..] == nodes1 && nodes2 == [head2];
    }
  }

  /** TAILQ_LAST, which takes the last entry for a head. */
  method Last(head: Entry, ghost nodes: seq<Entry>) returns (r: Entry?)
    requires IsQueue(nodes) && nodes[0] == head
    ensures r == if |nodes| > 1 then nodes[|nodes| - 1] else null
  {
    r := head.loc.loc.next;
  }

  /** TAILQ_PREV */
  method Prev(elm: Entry, ghost nodes: seq<Entry>, ghost i: nat) returns (r: Entry?)
    requires IsQueue(nodes) && 1 <= i < |nodes| && nodes[i] == elm
    ensures r == if i > 1 then nodes[i - 1] else null
  {
    r := elm.loc.loc.next;
  }

  /** TAILQ_FOREACH: the elements in order. */
  method Forwards(head: Entry, ghost nodes: seq<Entry>) returns (elms: seq<Entry>)
    requires IsQueue(nodes) && nodes[0] == head
    ensures elms == nodes[1..]
  {
    elms := [];
    var x := head.next;
    while x != null
      invariant |elms| < |nodes| && elms == nodes[1..|elms| + 1] && x == NextOf(nodes, |elms|)
      decreases |nodes| - |elms|
    {
      elms := elms + [x];
      x := x.next;
    }
  }

  ghost function Reversed(s: seq<Entry>): (r: seq<Entry>)
    ensures |r| == |s|
  {
    seq(|s|, i requires 0 <= i < |s| => s[|s| - 1 - i])
  }

  lemma ReversedOne(nodes: seq<Entry>, i: nat)
    requires i < |nodes|
    ensures Reversed(nodes[i..]) == Reversed(nodes[i + 1..]) + [nodes[i]]
    ensures Reversed(nodes[|nodes|..]) == []
  {
  }

  /** TAILQ_FOREACH_REVERSE: the elements in the reverse order. */
  method Backwards(head: Entry, ghost nodes: seq<Entry>) returns (elms: seq<Entry>)
    requires IsQueue(nodes) && nodes[0] == head
    ensures elms == Reversed(nodes[1..])
  {
    elms := [];
    ReversedOne(nodes, 0);
    hide Reversed;
    var x := Last(head, nodes);
    while x != null
      invariant |elms| < |nodes| && elms == Reversed(nodes[|nodes| - |elms|..])
      invariant x == if |elms| + 1 < |nodes| then nodes[|nodes| - 1 - |elms|] else null
      decreases |nodes| - |elms|
    {
      ghost var i := |nodes| - 1 - |elms|;
      ReversedOne(nodes, i);
      elms := elms + [x];
      x := Prev(x, nodes, i);
    }
  }
}
