/**
 The circular queue: head and elements form one ring, and the head stands for "no element" at
 both ends. `next` and `loc` are the next and the previous node; at the head they are the
 first and the last element.
 */
module CircleQueue {
  import opened TailQueue

  ghost function After(nodes: seq<Entry>, i: nat): Entry
    requires i < |nodes|
  {
    if i + 1 < |nodes| then nodes[i + 1] else nodes[0]
  }

  /** nodes[0] is the head; the node before it in the ring is the last element. */
  ghost predicate IsRing(nodes: seq<Entry>)
    reads nodes
  {
    && |nodes| > 0 && Distinct(nodes)
    && (forall i :: 0 <= i < |nodes| ==> nodes[i].next == After(nodes, i))
    && (forall i :: 0 <= i < |nodes| ==> nodes[i].loc == LocOf(nodes, i))
  }

  lemma InsertedAfter(nodes: seq<Entry>, i: nat, elm: Entry, t: nat)
    requires i < |nodes| && t <= |nodes|
    ensures |Inserted(nodes, i, elm)| == |nodes| + 1
    ensures After(Inserted(nodes, i, elm), t) == if t < i then After(nodes, t) else if t == i then elm
            else After(nodes, t - 1)
  {
  }

  lemma RemovedAfter(nodes: seq<Entry>, i: nat, t: nat)
    requires 1 <= i < |nodes| && t < |nodes| - 1
    ensures |Removed(nodes, i)| == |nodes| - 1
    ensures After(Removed(nodes, i), t) == if t < i - 1 then After(nodes, t) else After(nodes, t + 1)
  {
  }

  /** What the four stores of an insertion after node i leave. */
  lemma InsertedRing(nodes: seq<Entry>, i: nat, elm: Entry)
    requires Distinct(nodes) && i < |nodes| && elm !in nodes
    requires elm.next == After(nodes, i) && elm.loc == nodes[i]
    requires forall t :: 0 <= t < |nodes| ==> nodes[t].next == if t == i then elm else After(nodes, t)
    requires forall t :: 0 <= t < |nodes| ==>
               nodes[t].loc == if t == i + 1 || (t == 0 && i == |nodes| - 1) then elm else LocOf(nodes, t)
    ensures IsRing(Inserted(nodes, i, elm))
  {
    InsertedDistinct(nodes, i, elm);
    var m := Inserted(nodes, i, elm);
    hide NextOf, LocOf, Distinct, After;
    forall t | 0 <= t < |m|
      ensures m[t].next == After(m, t) && m[t].loc == LocOf(m, t)
    {
      InsertedAt(nodes, i, elm, t);
      InsertedAfter(nodes, i, elm, t);
      hide Inserted;
    }
  }

  /** What the two stores of a removal of node i leave. */
  lemma RemovedRing(nodes: seq<Entry>, i: nat)
    requires Distinct(nodes) && 1 <= i < |nodes|
    requires forall t :: 0 <= t < |nodes| ==> nodes[t].next == if t == i - 1 then After(nodes, i) else After(nodes, t)
    requires forall t :: 0 <= t < |nodes| ==>
               nodes[t].loc == if t == i + 1 || (t == 0 && i == |nodes| - 1) then nodes[i - 1] else LocOf(nodes, t)
    ensures IsRing(Removed(nodes, i))
  {
    var m := Removed(nodes, i);
    RemovedAt(nodes, i, 0);
    RemovedDistinct(nodes, i);
    hide NextOf, LocOf, Distinct, After;
    forall t | 0 <= t < |m|
      ensures m[t].next == After(m, t) && m[t].loc == LocOf(m, t)
    {
      RemovedAt(nodes, i, t);
      RemovedAfter(nodes, i, t);
      hide Removed;
    }
  }

  /** A node is the head exactly at position 0. */
  lemma HeadAt(nodes: seq<Entry>, i: nat)
    requires Distinct(nodes) && i < |nodes|
    ensures nodes[i] == nodes[0] <==> i == 0
  {
  }

  /** CIRCLEQ_INIT */
  method Init(head: Entry)
    modifies head
    ensures IsRing([head])
  {
    head.next := head;
    head.loc := head;
  }

  /** CIRCLEQ_INSERT_AFTER */
  method InsertAfter(head: Entry, listelm: Entry, elm: Entry, ghost nodes: seq<Entry>, ghost i: nat)
    requires IsRing(nodes) && nodes[0] == head && elm !in nodes && 1 <= i < |nodes| && nodes[i] == listelm
    modifies nodes, elm
    ensures IsRing(Inserted(nodes, i, elm))
  {
    elm.next := listelm.next;
    elm.loc := listelm;
    if listelm.next == head {
      head.loc := elm;
    } else {
      listelm.next.loc := elm;
    }
    listelm.next := elm;
    hide Inserted;
    InsertedRing(nodes, i, elm);
  }

  /** CIRCLEQ_INSERT_BEFORE */
  method InsertBefore(head: Entry, listelm: Entry, elm: Entry, ghost nodes: seq<Entry>, ghost i: nat)
    requires IsRing(nodes) && nodes[0] == head && elm !in nodes && 1 <= i < |nodes| && nodes[i] == listelm
    modifies nodes, elm
    ensures IsRing(Inserted(nodes, i - 1, elm))
  {
    elm.next := listelm;
    elm.loc := listelm.loc;
    if listelm.loc == head {
      head.next := elm;
    } else {
      listelm.loc.next := elm;
    }
    listelm.loc := elm;
    hide Inserted;
    InsertedRing(nodes, i - 1, elm);
  }

  /** CIRCLEQ_INSERT_HEAD */
  method InsertHead(head: Entry, elm: Entry, ghost nodes: seq<Entry>)
    requires IsRing(nodes) && nodes[0] == head && elm !in nodes
    modifies nodes, elm
    ensures IsRing(Inserted(nodes, 0, elm))
  {
    elm.next := head.next;
    elm.loc := head;
    if head.loc == head {
      head.loc := elm;
    } else {
      head.next.loc := elm;
    }
    head.next := elm;
    hide Inserted;
    InsertedRing(nodes, 0, elm);
  }

  /** CIRCLEQ_INSERT_TAIL */
  method InsertTail(head: Entry, elm: Entry, ghost nodes: seq<Entry>)
    requires IsRing(nodes) && nodes[0] == head && elm !in nodes
    modifies nodes, elm
    ensures IsRing(Inserted(nodes, |nodes| - 1, elm))
  {
    elm.next := head;
    elm.loc := head.loc;
    if head.next == head {
      head.next := elm;
    } else {
      head.loc.next := elm;
    }
    head.loc := elm;
    hide Inserted;
    InsertedRing(nodes, |nodes| - 1, elm);
  }

  /** CIRCLEQ_REMOVE */
  method Remove(head: Entry, elm: Entry, ghost nodes: seq<Entry>, ghost i: nat)
    requires IsRing(nodes) && nodes[0] == head && 1 <= i < |nodes| && nodes[i] == elm
    modifies nodes
    ensures IsRing(Removed(nodes, i))
  {
    if elm.next == head {
      head.loc := elm.loc;
    } else {
      elm.next.loc := elm.loc;
    }
    if elm.loc == head {
      head.next := elm.next;
    } else {
      elm.loc.next := elm.next;
    }
    hide Removed;
    RemovedRing(nodes, i);
  }

  /** CIRCLEQ_LOOP_NEXT: the next element, going round. */
  method LoopNext(head: Entry, elm: Entry, ghost nodes: seq<Entry>, ghost i: nat) returns (r: Entry)
    requires IsRing(nodes) && nodes[0] == head && 1 <= i < |nodes| && nodes[i] == elm
    ensures r == if i + 1 < |nodes| then nodes[i + 1] else nodes[1]
  {
    r := if elm.next == head then head.next else elm.next;
  }

  /** CIRCLEQ_LOOP_PREV: the previous element, going round. */
  method LoopPrev(head: Entry, elm: Entry, ghost nodes: seq<Entry>, ghost i: nat) returns (r: Entry)
    requires IsRing(nodes) && nodes[0] == head && 1 <= i < |nodes| && nodes[i] == elm
    ensures r == if i > 1 then nodes[i - 1] else nodes[|nodes| - 1]
  {
    r := if elm.loc == head then head.loc else elm.loc;
  }

  /** CIRCLEQ_FOREACH_REVERSE */
  method Backwards(head: Entry, ghost nodes: seq<Entry>) returns (elms: seq<Entry>)
    requires IsRing(nodes) && nodes[0] == head
    ensures elms == Reversed(nodes[1..])
  {
    elms := [];
    ReversedOne(nodes, 0);
    HeadAt(nodes, |nodes| - 1);
    hide Reversed;
    var x := head.loc;
    ghost var i := |nodes| - 1;
    while x != head
      invariant 0 <= i < |nodes| && x == nodes[i] && elms == Reversed(nodes[i + 1..])
      decreases i
    {
      HeadAt(nodes, i);
      ReversedOne(nodes, i);
      elms := elms + [x];
      x := x.loc;
      i := i - 1;
    }
    HeadAt(nodes, i);
  }
}
