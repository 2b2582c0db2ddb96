/**
 The singly linked tail queue: as the tail queue, but only the head keeps the address of the
 last cell. The task queue of the thread pool is one, under a spin lock.
 */
module SimpleQueue {
  import opened TailQueue

  /** A chain of cells, each pointing at the next. */
  ghost predicate IsChain(nodes: seq<Entry>)
    reads nodes
  {
    && |nodes| > 0 && Distinct(nodes)
    && forall i :: 0 <= i < |nodes| ==> nodes[i].next == NextOf(nodes, i)
  }

  /** nodes[0] is the head; its `loc` is where the next element would be appended. */
  ghost predicate IsSimple(nodes: seq<Entry>)
    reads nodes
  {
    IsChain(nodes) && nodes[0].loc == nodes[|nodes| - 1]
  }

  lemma InsertedChain(nodes: seq<Entry>, i: nat, elm: Entry)
    requires Distinct(nodes) && i < |nodes| && elm !in nodes
    requires elm.next == NextOf(nodes, i)
    requires forall t :: 0 <= t < |nodes| ==> nodes[t].next == if t == i then elm else NextOf(nodes, t)
    ensures IsChain(Inserted(nodes, i, elm))
    ensures var m := Inserted(nodes, i, elm);
            m[0] == nodes[0] && m[|m| - 1] == if i == |nodes| - 1 then elm else nodes[|nodes| - 1]
  {
    InsertedDistinct(nodes, i, elm);
    var m := Inserted(nodes, i, elm);
    InsertedAt(nodes, i, elm, 0);
    InsertedAt(nodes, i, elm, |nodes|);
    hide NextOf, LocOf, Distinct;
    forall t | 0 <= t < |m|
      ensures m[t].next == NextOf(m, t)
    {
      InsertedAt(nodes, i, elm, t);
      hide Inserted;
    }
  }

  lemma RemovedChain(nodes: seq<Entry>, i: nat)
    requires Distinct(nodes) && 1 <= i < |nodes|
    requires forall t :: 0 <= t < |nodes| && t != i ==>
            nodes[t].next == if t == i - 1 then NextOf(nodes, i) else NextOf(nodes, t)
    ensures IsChain(Removed(nodes, i))
    ensures var m := Removed(nodes, i); m[0] == nodes[0] && m[|m| - 1] == if i == |nodes| - 1 then nodes[i - 1]
            else nodes[|nodes| - 1]
  {
    var m := Removed(nodes, i);
    RemovedAt(nodes, i, 0);
    RemovedAt(nodes, i, |nodes| - 2);
    RemovedDistinct(nodes, i);
    hide NextOf, LocOf, Distinct;
    forall t | 0 <= t < |m|
      ensures m[t].next == NextOf(m, t)
    {
      RemovedAt(nodes, i, t);
      hide Removed;
    }
  }

  /** STAILQ_INIT */
  method Init(head: Entry)
    modifies head
    ensures IsSimple([head])
  {
    head.next := null;
    head.loc := head;
  }

  /** STAILQ_INSERT_HEAD */
  method InsertHead(head: Entry, elm: Entry, ghost nodes: seq<Entry>)
    requires IsSimple(nodes) && nodes[0] == head && elm !in nodes
    modifies head, elm
    ensures IsSimple(Inserted(nodes, 0, elm))
  {
    elm.next := head.next;
    if elm.next == null {
      head.loc := elm;
    }
    head.next := elm;
    hide Inserted;
    InsertedChain(nodes, 0, elm);
  }

  /** STAILQ_INSERT_TAIL */
  method InsertTail(head: Entry, elm: Entry, ghost nodes: seq<Entry>)
    requires IsSimple(nodes) && nodes[0] == head && elm !in nodes
    modifies head, nodes[|nodes| - 1], elm
    ensures IsSimple(nodes + [elm])
  {
    elm.next := null;
    head.loc.next := elm;
    head.loc := elm;
    hide Inserted;
    InsertedChain(nodes, |nodes| - 1, elm);
    AtEnd(nodes, elm);
  }

  lemma AtEnd(nodes: seq<Entry>, elm: Entry)
    requires |nodes| > 0
    ensures Inserted(nodes, |nodes| - 1, elm) == nodes + [elm]
  {
  }

  /** STAILQ_INSERT_AFTER */
  method InsertAfter(head: Entry, listelm: Entry, elm: Entry, ghost nodes: seq<Entry>, ghost i: nat)
    requires IsSimple(nodes) && nodes[0] == head && elm !in nodes && 1 <= i < |nodes| && nodes[i] == listelm
    modifies head, listelm, elm
    ensures IsSimple(Inserted(nodes, i, elm))
  {
    elm.next := listelm.next;
    if elm.next == null {
      head.loc := elm;
    }
    listelm.next := elm;
    hide Inserted;
    InsertedChain(nodes, i, elm);
  }

  /** STAILQ_REMOVE_HEAD */
  method RemoveHead(head: Entry, ghost nodes: seq<Entry>)
    requires IsSimple(nodes) && nodes[0] == head && |nodes| > 1
    modifies head
    ensures IsSimple(Removed(nodes, 1))
  {
    head.next := head.next.next;
    if head.next == null {
      head.loc := head;
    }
    hide Removed;
    RemovedChain(nodes, 1);
  }

  /** STAILQ_REMOVE: the element is looked for from the head. */
  method Remove(head: Entry, elm: Entry, ghost nodes: seq<Entry>, ghost i: nat)
    requires IsSimple(nodes) && nodes[0] == head && 1 <= i < |nodes| && nodes[i] == elm
    modifies nodes
    ensures IsSimple(Removed(nodes, i))
  {
    if head.next == elm {
      FirstIs(nodes, i);
      RemoveHead(head, nodes);
    } else {
      var curelm := head.next;
      ghost var k := 1;
      while curelm.next != elm
        modifies {}
        invariant 1 <= k < i && curelm == nodes[k]
        decreases i - k
      {
        curelm := curelm.next;
        k := k + 1;
      }
      FirstIs(nodes, i);
      SameAt(nodes, k + 1, i);
      curelm.next := curelm.next.next;
      if curelm.next == null {
        head.loc := curelm;
      }
      hide Removed;
      RemovedChain(nodes, i);
    }
  }

  lemma FirstIs(nodes: seq<Entry>, i: nat)
    requires Distinct(nodes) && 1 <= i < |nodes|
    ensures nodes[1] == nodes[i] <==> i == 1
  {
  }

  lemma SameAt(nodes: seq<Entry>, a: nat, b: nat)
    requires Distinct(nodes) && a < |nodes| && b < |nodes| && nodes[a] == nodes[b]
    ensures a == b
  {
  }

  /** STAILQ_CONCAT */
  method Concat(head1: Entry, head2: Entry, ghost nodes1: seq<Entry>, ghost nodes2: seq<Entry>)
    requires IsSimple(nodes1) && IsSimple(nodes2) && nodes1[0] == head1 && nodes2[0] == head2
    requires forall x :: x in nodes1 ==> x !in nodes2
    modifies nodes1, head2
    ensures IsSimple(nodes1 + nodes2[1..]) && IsSimple([head2])
  {
    forall i, j | 0 <= i < |nodes1| && 0 <= j < |nodes2|
      ensures nodes1[i] != nodes2[j]
    {
      assert nodes1[i] in nodes1 && nodes2[j] in nodes2;
    }
    if head2.next != null {
      head1.loc.next := head2.next;
      head1.loc := head2.loc;
      head2.next := null;
      head2.loc := head2;
      JoinedSimple(nodes1, nodes2);
    } else {
      assert nodes1 + nodes2[1..] == nodes1 && nodes2 == [head2];
    }
  }

  lemma JoinedSimple(a: seq<Entry>, b: seq<Entry>)
    requires |a| > 0 && |b| > 1 && Distinct(a) && Distinct(b) && forall x :: x in a ==> x !in b
    requires forall t :: 0 <= t < |a| ==> a[t].next == if t == |a| - 1 then b[1] else NextOf(a, t)
    requires forall t :: 1 <= t < |b| ==> b[t].next == NextOf(b, t)
    requires a[0].loc == b[|b| - 1]
    ensures IsSimple(a + b[1..])
  {
    var m := a + b[1..];
    JoinedDistinct(a, b);
    JoinedAt(a, b, |m| - 1);
    hide NextOf, LocOf, Distinct;
    forall t | 0 <= t < |m|
      ensures m[t].next == NextOf(m, t)
    {
      JoinedAt(a, b, t);
    }
  }

  // ---------------------------------------------------------------- the task queue

  /** The queue keeps its own first cell and the place to append at; tasks are entries. */
  class TaskQueue {
    /** The cell that the source calls `head`. */
    const cell: Entry
    var tail: Entry
    ghost var nodes: seq<Entry>

    ghost predicate Valid()
      reads this, nodes
    {
      IsChain(nodes) && nodes[0] == cell && tail == nodes[|nodes| - 1]
    }

    /** The tasks that wait, oldest first. */
    ghost function Tasks(): seq<Entry>
      requires Valid()
      reads this, nodes
    {
      nodes[1..]
    }

    constructor ()
      ensures Valid() && Tasks() == [] && fresh(cell)
    {
      var c := new Entry();
      cell := c;
      tail := c;
      nodes := [c];
    }

    /** push_task; `task` is what malloc gives, and without it nothing happens. */
    method Push(task: Entry?)
      requires Valid() && task !in nodes
      modifies this`tail, this`nodes, tail, if task == null then {} else {task}
      ensures Valid()
      ensures task == null ==> Tasks() == old(Tasks()) && nodes == old(nodes)
      ensures task != null ==> Tasks() == old(Tasks()) + [task] && nodes == old(nodes) + [task]
    {
      if task == null {
        return;
      }
      task.next := null;
      tail.next := task;
      tail := task;
      AtEnd(nodes, task);
      hide Inserted;
      InsertedChain(nodes, |nodes| - 1, task);
      nodes := nodes + [task];
    }

    /** pop_task: the oldest task, or null. */
    method Pop() returns (task: Entry?)
      requires Valid()
      modifies this`tail, this`nodes, cell
      ensures Valid()
      ensures old(Tasks()) == [] ==> task == null && nodes == old(nodes)
      ensures old(Tasks()) != [] ==> task == old(Tasks())[0] && Tasks() == old(Tasks())[1..]
    {
      task := null;
      if cell.next != null {
        task := cell.next;
        cell.next := task.next;
        if cell.next == null {
          tail := cell;
        }
        Shorter(nodes);
        hide Removed;
        RemovedChain(nodes, 1);
        nodes := Removed(nodes, 1);
      }
    }

    /** sh_destory_task_queue: every task that is left is freed, oldest first. */
    method Destroy() returns (freed: seq<Entry>)
      requires Valid()
      modifies this`tail, this`nodes, cell
      ensures Valid() && Tasks() == [] && freed == old(Tasks())
    {
      freed := [];
      ghost var all := Tasks();
      hide IsChain, Waiting;
      WaitingFirst(all);
      var task := Pop();
      while task != null
        invariant Valid() && Waiting(all, freed, task, Tasks())
        decreases |all| - |freed|
      {
        WaitingNext(all, freed, task, Tasks());
        freed := freed + [task];
        task := Pop();
      }
      WaitingNext(all, freed, task, Tasks());
    }
  }

  /** The tasks freed so far, the one in hand and the ones that wait are all of them, in order. */
  ghost predicate Waiting(all: seq<Entry>, freed: seq<Entry>, task: Entry?, rest: seq<Entry>) {
    && |freed| <= |all| && freed == all[..|freed|]
    && if |freed| < |all| then task == all[|freed|] && rest == all[|freed| + 1..] else task == null && rest == []
  }

  lemma WaitingFirst(all: seq<Entry>)
    ensures all == [] ==> Waiting(all, [], null, [])
    ensures all != [] ==> Waiting(all, [], all[0], all[1..])
  {
  }

  lemma WaitingNext(all: seq<Entry>, freed: seq<Entry>, task: Entry?, rest: seq<Entry>)
    requires Waiting(all, freed, task, rest)
    ensures task == null ==> freed == all && rest == []
    ensures task != null ==> |freed| < |all|
    ensures task != null && rest == [] ==> Waiting(all, freed + [task], null, [])
    ensures task != null && rest != [] ==> Waiting(all, freed + [task], rest[0], rest[1..])
  {
  }

  lemma Shorter(nodes: seq<Entry>)
    requires |nodes| > 1
    ensures Removed(nodes, 1)[1..] == nodes[1..][1..] && Removed(nodes, 1)[0] == nodes[0]
  {
  }
}
