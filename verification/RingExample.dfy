/**
 Runs of a ring of capacity 1 on which a producer and a consumer, both with number 1, load a
 head at position 0 and are then overtaken: any number of objects goes through the ring, one
 at a time, before they read a tail.
 */
module RingExample {
  import opened Powers
  import opened RingProtocol
  import opened RingTheorems

  /** The producer that is overtaken. */
  ghost function Slow(x: Obj): Producer { PLoaded([x], Fixed, 0) }

  /** The consumer that is overtaken. */
  ghost function Late(): Consumer { CLoaded(1, Fixed, 0) }

  /** A state of the ring of two slots in which both still wait. */
  ghost function Ring(m: Mem, x: Obj, others: map<nat, Producer>, conss: map<nat, Consumer>, pq: seq<Resv>,
                      cq: seq<Resv>): State {
    State(m, others + map[1 := Slow(x)], conss + map[1 := Late()], pq, cq)
  }

  ghost function Copies(n: nat, x: Obj): seq<Obj> { seq(n, _ => x) }

  ghost function Taken(n: nat, x: Obj): map<nat, Obj> {
    if n == 0 then map[] else Taken(n - 1, x)[n - 1 := x]
  }

  /** Shared memory after n objects went through. */
  ghost function Idle(n: nat, x: Obj): Mem {
    Mem(1, 2, false, false, n, n, n, n, [x, x], Copies(n, x), Taken(n, x))
  }

  ghost function Reserved(n: nat, x: Obj): Mem { Idle(n, x).(ph := n + 1, enq := Copies(n + 1, x)) }

  ghost function Published(n: nat, x: Obj): Mem { Reserved(n, x).(pt := n + 1) }

  ghost function Claimed(n: nat, x: Obj): Mem { Published(n, x).(ch := n + 1) }

  ghost function Read(n: nat, x: Obj): Mem { Claimed(n, x).(deq := Taken(n + 1, x)) }

  lemma OneMore(r: seq<State>, s': State, id: nat, e: Event)
    requires Run(r) && Does(r[|r| - 1], s', id, e) && NoAba(r[|r| - 1], id, e)
    ensures Run(r + [s']) && (r + [s'])[|r|] == s'
  {
    var q := r + [s'];
    assert Next(r[|r| - 1], s');
    hide Does, NoAba, Next, Init;
    forall i | 0 <= i < |q| - 1
      ensures Next(q[i], q[i + 1])
    {
      if i < |r| - 1 {
        assert Next(r[i], r[i + 1]);
      }
    }
  }

  /** A run that ends in s. */
  ghost predicate Reaches(r: seq<State>, s: State) { |r| > 0 && Run(r) && r[|r| - 1] == s }

  // ---------------------------------------------------------------- both load their heads

  lemma LoadHeads(x: Obj) returns (r: seq<State>)
    ensures Reaches(r, Ring(Idle(0, x), x, map[], map[], [], []))
  {
    var s0 := State(Idle(0, x), map[], map[], [], []);
    assert Pow2(1) == 2;
    r := [s0];
    var s1 := s0.(prods := map[1 := PStart([x], Fixed)]);
    OneMore(r, s1, 1, EPBegin([x], Fixed));
    r := r + [s1];
    var s2 := s1.(prods := map[1 := Slow(x)]);
    OneMore(r, s2, 1, EPLoadHead);
    r := r + [s2];
    r := LoadLate(r, x);
  }

  lemma LoadLate(r0: seq<State>, x: Obj) returns (r: seq<State>)
    requires Reaches(r0, State(Idle(0, x), map[1 := Slow(x)], map[], [], []))
    ensures Reaches(r, Ring(Idle(0, x), x, map[], map[], [], []))
  {
    hide Run;
    var s := r0[|r0| - 1];
    var s1 := s.(conss := map[1 := CStart(1, Fixed)]);
    OneMore(r0, s1, 1, ECBegin(1, Fixed));
    var s2 := s1.(conss := map[1 := Late()]);
    OneMore(r0 + [s1], s2, 1, ECLoadHead);
    r := r0 + [s1] + [s2];
    assert map[] + map[1 := Slow(x)] == map[1 := Slow(x)];
    assert map[] + map[1 := Late()] == map[1 := Late()];
  }

  // ---------------------------------------------------------------- one object goes through

  lemma LoadHead(r0: seq<State>, n: nat, x: Obj) returns (r: seq<State>)
    requires Reaches(r0, Ring(Idle(n, x), x, map[], map[], [], []))
    ensures Reaches(r, Ring(Idle(n, x), x, map[2 := PLoaded([x], Fixed, n)], map[], [], []))
  {
    hide Run, Copies, Taken;
    var s := r0[|r0| - 1];
    var s1 := Ring(Idle(n, x), x, map[2 := PStart([x], Fixed)], map[], [], []);
    assert s1.prods == s.prods[2 := PStart([x], Fixed)];
    OneMore(r0, s1, 2, EPBegin([x], Fixed));
    var s2 := Ring(Idle(n, x), x, map[2 := PLoaded([x], Fixed, n)], map[], [], []);
    assert s2.prods == s1.prods[2 := PLoaded([x], Fixed, n)];
    OneMore(r0 + [s1], s2, 2, EPLoadHead);
    r := r0 + [s1] + [s2];
  }

  lemma Reserve(r0: seq<State>, n: nat, x: Obj) returns (r: seq<State>)
    requires Reaches(r0, Ring(Idle(n, x), x, map[2 := PLoaded([x], Fixed, n)], map[], [], []))
    ensures Reaches(r, Ring(Reserved(n, x), x, map[2 := PCopy([x], n, 1, 0)], map[], [Resv(2, n, 1)], []))
  {
    hide Taken;
    assert Copies(n + 1, x) == Copies(n, x) + [x];
    hide Run, Copies;
    var s := r0[|r0| - 1];
    FreeIs(2, n, n);
    hide FreeWord, Word;
    var ready := PReady([x], Fixed, n, n, 1, 1);
    assert Offer(s.m, PLoaded([x], Fixed, n)) == ready;
    var s1 := Ring(Idle(n, x), x, map[2 := ready], map[], [], []);
    assert s1.prods == s.prods[2 := ready];
    OneMore(r0, s1, 2, EPReadTail);
    var s2 := Ring(Reserved(n, x), x, map[2 := PCopy([x], n, 1, 0)], map[], [Resv(2, n, 1)], []);
    assert [x][..1] == [x] && s2.prods == s1.prods[2 := PCopy([x], n, 1, 0)];
    assert s2.pq == s1.pq + [Resv(2, n, 1)];
    OneMore(r0 + [s1], s2, 2, EPMoveHead);
    r := r0 + [s1] + [s2];
  }

  lemma OneSlot(n: nat)
    ensures SlotOf(2, n, 0) < 2
  {
  }

  lemma CopyIn(r0: seq<State>, n: nat, x: Obj) returns (r: seq<State>)
    requires Reaches(r0, Ring(Reserved(n, x), x, map[2 := PCopy([x], n, 1, 0)], map[], [Resv(2, n, 1)], []))
    ensures Reaches(r, Ring(Reserved(n, x), x, map[2 := PCopy([x], n, 1, 1)], map[], [Resv(2, n, 1)], []))
  {
    OneSlot(n);
    hide Run, SlotOf, Copies, Taken;
    var s := r0[|r0| - 1];
    var s1 := Ring(Reserved(n, x), x, map[2 := PCopy([x], n, 1, 1)], map[], [Resv(2, n, 1)], []);
    assert s1.prods == s.prods[2 := PCopy([x], n, 1, 1)] && [x, x][SlotOf(2, n, 0) := x] == [x, x];
    OneMore(r0, s1, 2, EPCopyOne);
    r := r0 + [s1];
  }

  lemma Publish(r0: seq<State>, n: nat, x: Obj) returns (r: seq<State>)
    requires Reaches(r0, Ring(Reserved(n, x), x, map[2 := PCopy([x], n, 1, 1)], map[], [Resv(2, n, 1)], []))
    ensures Reaches(r, Ring(Published(n, x), x, map[], map[], [], []))
  {
    hide Run, Copies, Taken;
    var s1 := r0[|r0| - 1];
    var s2 := Ring(Published(n, x), x, map[], map[], [], []);
    assert s2.prods == s1.prods - {2} && [Resv(2, n, 1)][1..] == [];
    OneMore(r0, s2, 2, EPPublish);
    r := r0 + [s2];
  }

  /** A producer puts one object in. */
  lemma Enqueue(r0: seq<State>, n: nat, x: Obj) returns (r: seq<State>)
    requires Reaches(r0, Ring(Idle(n, x), x, map[], map[], [], []))
    ensures Reaches(r, Ring(Published(n, x), x, map[], map[], [], []))
  {
    hide Reaches, Ring, Idle, Reserved, Published;
    r := LoadHead(r0, n, x);
    r := Reserve(r, n, x);
    r := CopyIn(r, n, x);
    r := Publish(r, n, x);
  }

  lemma LoadConsumerHead(r0: seq<State>, n: nat, x: Obj) returns (r: seq<State>)
    requires Reaches(r0, Ring(Published(n, x), x, map[], map[], [], []))
    ensures Reaches(r, Ring(Published(n, x), x, map[], map[3 := CLoaded(1, Fixed, n)], [], []))
  {
    hide Run, Copies, Taken;
    var s := r0[|r0| - 1];
    var s1 := Ring(Published(n, x), x, map[], map[3 := CStart(1, Fixed)], [], []);
    assert s1.conss == s.conss[3 := CStart(1, Fixed)];
    OneMore(r0, s1, 3, ECBegin(1, Fixed));
    var s2 := Ring(Published(n, x), x, map[], map[3 := CLoaded(1, Fixed, n)], [], []);
    assert s2.conss == s1.conss[3 := CLoaded(1, Fixed, n)];
    OneMore(r0 + [s1], s2, 3, ECLoadHead);
    r := r0 + [s1] + [s2];
  }

  lemma Claim(r0: seq<State>, n: nat, x: Obj) returns (r: seq<State>)
    requires Reaches(r0, Ring(Published(n, x), x, map[], map[3 := CLoaded(1, Fixed, n)], [], []))
    ensures Reaches(r, Ring(Claimed(n, x), x, map[], map[3 := CCopy(n, 1, [])], [], [Resv(3, n, 1)]))
  {
    hide Run, Copies, Taken, EntriesWord, Word;
    var s := r0[|r0| - 1];
    EntriesIs(n + 1, n);
    var ready := CReady(1, Fixed, n, n + 1, 1, 1);
    assert Demand(Published(n, x), CLoaded(1, Fixed, n)) == ready;
    var s1 := Ring(Published(n, x), x, map[], map[3 := ready], [], []);
    assert s1.conss == s.conss[3 := ready];
    OneMore(r0, s1, 3, ECReadTail);
    var s2 := Ring(Claimed(n, x), x, map[], map[3 := CCopy(n, 1, [])], [], [Resv(3, n, 1)]);
    assert s2.conss == s1.conss[3 := CCopy(n, 1, [])] && s2.cq == s1.cq + [Resv(3, n, 1)];
    OneMore(r0 + [s1], s2, 3, ECMoveHead);
    r := r0 + [s1] + [s2];
  }

  lemma CopyOutStep(n: nat, x: Obj)
    ensures CCopyOne(
              Ring(Claimed(n, x), x, map[], map[3 := CCopy(n, 1, [])], [], [Resv(3, n, 1)]),
              Ring(Read(n, x), x, map[], map[3 := CCopy(n, 1, [x])], [], [Resv(3, n, 1)]), 3)
  {
    OneSlot(n);
    assert Taken(n + 1, x) == Taken(n, x)[n := x];
    hide SlotOf, Copies, Taken;
    var none: seq<Obj> := [];
    assert none + [x] == [x] && [x, x][SlotOf(2, n, 0)] == x;
    assert map[3 := CCopy(n, 1, [x])] + map[1 := Late()] ==
           (map[3 := CCopy(n, 1, none)] + map[1 := Late()])[3 := CCopy(n, 1, [x])];
  }

  lemma CopyOut(r0: seq<State>, n: nat, x: Obj) returns (r: seq<State>)
    requires Reaches(r0, Ring(Claimed(n, x), x, map[], map[3 := CCopy(n, 1, [])], [], [Resv(3, n, 1)]))
    ensures Reaches(r, Ring(Read(n, x), x, map[], map[3 := CCopy(n, 1, [x])], [], [Resv(3, n, 1)]))
  {
    CopyOutStep(n, x);
    hide Run, CCopyOne, Copies, Taken;
    var s1 := Ring(Read(n, x), x, map[], map[3 := CCopy(n, 1, [x])], [], [Resv(3, n, 1)]);
    OneMore(r0, s1, 3, ECCopyOne);
    r := r0 + [s1];
  }

  lemma Free(r0: seq<State>, n: nat, x: Obj) returns (r: seq<State>)
    requires Reaches(r0, Ring(Read(n, x), x, map[], map[3 := CCopy(n, 1, [x])], [], [Resv(3, n, 1)]))
    ensures Reaches(r, Ring(Idle(n + 1, x), x, map[], map[], [], []))
  {
    hide Run, Copies, Taken;
    var s1 := r0[|r0| - 1];
    var s2 := Ring(Idle(n + 1, x), x, map[], map[], [], []);
    assert s2.conss == s1.conss - {3} && [Resv(3, n, 1)][1..] == [];
    OneMore(r0, s2, 3, ECPublish);
    r := r0 + [s2];
  }

  /** A consumer takes it out. */
  lemma Dequeue(r0: seq<State>, n: nat, x: Obj) returns (r: seq<State>)
    requires Reaches(r0, Ring(Published(n, x), x, map[], map[], [], []))
    ensures Reaches(r, Ring(Idle(n + 1, x), x, map[], map[], [], []))
  {
    hide Reaches, Ring, Idle, Published, Claimed, Read;
    r := LoadConsumerHead(r0, n, x);
    r := Claim(r, n, x);
    r := CopyOut(r, n, x);
    r := Free(r, n, x);
  }

  /** Any number of objects goes through while the two wait. */
  lemma {:induction false} Rounds(n: nat, x: Obj) returns (r: seq<State>)
    ensures Reaches(r, Ring(Idle(n, x), x, map[], map[], [], []))
  {
    hide Reaches, Ring, Idle, Published;
    if n == 0 {
      r := LoadHeads(x);
    } else {
      r := Rounds(n - 1, x);
      r := Enqueue(r, n - 1, x);
      r := Dequeue(r, n - 1, x);
    }
  }

  // ---------------------------------------------------------------- what the two find

  /** The overtaken producer reads a free count of 2 on a ring of capacity 1. */
  lemma StaleRun(x: Obj) returns (r: seq<State>)
    ensures Run(r)
    ensures var s := r[|r| - 1];
      1 in s.prods && s.prods[1].PReady? && s.prods[1].free == 2 && s.m.size - 1 == 1
  {
    r := Rounds(1, x);
    hide Run, Copies, Taken;
    FreeIs(2, 1, 0);
    var p := PReady([x], Fixed, 0, 1, 1, 2);
    assert Offer(Idle(1, x), Slow(x)) == p;
    hide FreeWord;
    var s := r[|r| - 1];
    var s' := s.(prods := s.prods[1 := p]);
    OneMore(r, s', 1, EPReadTail);
    r := r + [s'];
  }

  /** The overtaken consumer reads an entry count of 2 on it. */
  lemma StaleEntries(x: Obj) returns (r: seq<State>)
    ensures Run(r)
    ensures var s := r[|r| - 1];
      1 in s.conss && s.conss[1].CReady? && s.conss[1].entries == 2 && s.m.size - 1 == 1
  {
    r := Rounds(2, x);
    hide Run, Copies, Taken;
    EntriesIs(2, 0);
    var c := CReady(1, Fixed, 0, 2, 1, 2);
    assert Demand(Idle(2, x), Late()) == c;
    hide EntriesWord;
    var s := r[|r| - 1];
    var s' := s.(conss := s.conss[1 := c]);
    OneMore(r, s', 1, ECReadTail);
    r := r + [s'];
  }

  /** After 2^32 - 1 objects the producer's one object is refused though the ring is empty. */
  lemma SpuriousRefusal(x: Obj) returns (r: seq<State>)
    ensures Run(r) && |r| >= 2
    ensures var s, s' := r[|r| - 2], r[|r| - 1];
      && 1 in s.prods && s.prods[1] == PLoaded([x], Fixed, 0)
      && PReadTail(s, s', 1) && 1 !in s'.prods && Room(s.m) == 1 == s.m.size - 1
  {
    var n: nat := WORD - 1;
    r := Rounds(n, x);
    hide Run, Copies, Taken;
    FreeIs(2, n, 0);
    var s := r[|r| - 1];
    assert Offer(Idle(n, x), Slow(x)).n == 0;
    hide FreeWord, Offer, Idle;
    var s' := s.(prods := s.prods - {1});
    OneMore(r, s', 1, EPReadTail);
    r := r + [s'];
  }

  /** With the next object in the ring the consumer's request for one is refused. */
  lemma SpuriousShortage(x: Obj) returns (r: seq<State>)
    ensures Run(r) && |r| >= 2
    ensures var s, s' := r[|r| - 2], r[|r| - 1];
      && 1 in s.conss && s.conss[1] == CLoaded(1, Fixed, 0)
      && CReadTail(s, s', 1) && 1 !in s'.conss && Available(s.m) == 1
  {
    var n: nat := WORD - 1;
    r := Rounds(n, x);
    r := Enqueue(r, n, x);
    hide Run, Copies, Taken;
    EntriesIs(n + 1, 0);
    var s := r[|r| - 1];
    assert Demand(Published(n, x), Late()).n == 0;
    hide EntriesWord, Demand;
    var s' := s.(conss := s.conss - {1});
    OneMore(r, s', 1, ECReadTail);
    r := r + [s'];
  }

  /** rte_ring_count, one tail read before and the other after an object went through, gives 1 for an empty ring. */
  lemma WrongCount(x: Obj) returns (r: seq<State>)
    ensures Run(r)
    ensures var m, m' := r[0].m, r[|r| - 1].m;
      && m.pt == m.ct && m'.pt == m'.ct && m.size == m'.size == 2 && CountRead(2, m.pt, m'.ct) == 1
  {
    r := Rounds(1, x);
    assert Init(r[0]);
    hide Copies, Taken, Run, CountRead;
    TailsRise(r, 0, |r| - 1);
    assert Pow2(1) == 2;
    CountWord(1, 2, 0, 1);
  }
}
