/**
 What every run of the ring keeps, for any number of producers and consumers: FIFO order,
 index bounds, one owner for each slot being copied, no deadlock in the wait for the tail,
 exact counts for the winner of a compare-and-set.
 */
module RingTheorems {
  import opened Powers
  import opened RingCopy
  import opened RingProtocol

  // ---------------------------------------------------------------- order

  /** What came out for the first n positions, in the order in which consumers moved the head. */
  ghost function Out(deq: map<nat, Obj>, n: nat): (s: seq<Obj>)
    requires forall j :: 0 <= j < n ==> j in deq
    ensures |s| == n
  {
    seq(n, j requires 0 <= j < n => deq[j])
  }

  lemma OutIs(m: Mem)
    requires Shape(m) && Bounds(m) && Contents(m)
    ensures Out(m.deq, m.ct) == m.enq[..m.ct]
  {
    hide Pow2;
  }

  /**
   Nothing is lost, duplicated, reordered, or read before it is written: the objects dequeued
   are a prefix of the objects enqueued, each kind in the order of its own head.
   */
  lemma Fifo(r: seq<State>, i: nat)
    requires Run(r) && i < |r|
    ensures var m := r[i].m;
      && m.ct <= m.pt && m.pt <= |m.enq|
      && (forall j :: 0 <= j < m.ct ==> j in m.deq)
      && Out(m.deq, m.ct) == m.enq[..m.ct]
      && (forall j :: j in m.deq ==> j < m.pt && m.deq[j] == m.enq[j])
      && (r[i].cq == [] ==> m.ct == m.ch && forall j :: j in m.deq <==> 0 <= j < m.ct)
  {
    RunKeeps(r);
    OutIs(r[i].m);
    hide Pow2, Holds, PListed, CListed, ProducersOk, ConsumersOk;
  }

  /** The four indices keep their order, and never more than the capacity is taken. */
  lemma IndexBounds(r: seq<State>, i: nat)
    requires Run(r) && i < |r|
    ensures var m := r[i].m; m.ct <= m.ch <= m.pt <= m.ph <= m.ct + (m.size - 1)
  {
    RunKeeps(r);
    hide Tiles, Contents, Shape, PListed, CListed, ProducersOk, ConsumersOk;
  }

  /** A consumer that has copied its share holds consecutive objects, as they were put in. */
  lemma DequeueReturns(r: seq<State>, i: nat, id: nat)
    requires Run(r) && i < |r| && id in r[i].conss && r[i].conss[id].CCopy?
    requires |r[i].conss[id].got| == r[i].conss[id].n
    ensures var m, c := r[i].m, r[i].conss[id];
      c.n >= 1 && c.from + c.n <= m.pt <= |m.enq| && c.got == m.enq[c.from..c.from + c.n]
  {
    hide Tiles, Contents, PListed, CListed, ProducersOk;
    RunKeeps(r);
    assert ConsumerOk(r[i].m, r[i].conss[id]);
    hide Pow2, Tiles, Contents, PListed, CListed, ProducersOk, ConsumersOk;
  }

  /** The slots between the tails, oldest first. */
  ghost function Live(m: Mem): (s: seq<Obj>)
    requires 0 < m.size <= |m.slots| && m.ct <= m.pt
    ensures |s| == m.pt - m.ct
  {
    seq(m.pt - m.ct, j requires 0 <= j < m.pt - m.ct => m.slots[(m.ct + j) % m.size])
  }

  lemma LiveIs(m: Mem)
    requires Shape(m) && Bounds(m) && Contents(m)
    ensures Live(m) == m.enq[m.ct..m.pt]
  {
    hide Pow2;
    forall j | 0 <= j < m.pt - m.ct
      ensures Live(m)[j] == m.enq[m.ct..m.pt][j]
    {
      assert Holds(m, m.ct + j);
    }
  }

  /** Between calls, what was enqueued is what was dequeued followed by what the ring holds. */
  lemma Conservation(r: seq<State>, i: nat)
    requires Run(r) && i < |r| && r[i].prods == map[] && r[i].conss == map[]
    ensures var m := r[i].m;
      && 0 < m.size <= |m.slots| && m.ct <= m.pt && (forall j :: 0 <= j < m.ct ==> j in m.deq)
      && m.enq == Out(m.deq, m.ct) + Live(m)
      && |Live(m)| <= m.size - 1
  {
    RunKeeps(r);
    var s := r[i];
    OutIs(s.m);
    LiveIs(s.m);
    NobodyIn(s);
    hide Pow2, Holds, Tiles, PListed, CListed, ProducersOk, ConsumersOk, Out, Live;
    assert s.m.enq == s.m.enq[..s.m.ct] + s.m.enq[s.m.ct..s.m.pt];
  }

  lemma NobodyIn(s: State)
    requires PListed(s.prods, s.pq) && Tiles(s.pq, s.m.pt, s.m.ph) && s.prods == map[]
    ensures s.m.pt == s.m.ph
  {
    if s.pq != [] {
      FirstListed(s.prods, s.pq);
    }
  }

  lemma FirstListed(prods: map<nat, Producer>, q: seq<Resv>)
    requires PListed(prods, q) && q != []
    ensures q[0].id in prods
  {
    assert q[0] in q;
  }

  // ---------------------------------------------------------------- history

  /** Enqueued objects are only added, and an object that came out is never taken back or replaced. */
  ghost predicate Extends(m: Mem, m': Mem) {
    && m.enq <= m'.enq
    && (forall j :: j in m.deq ==> j in m'.deq && m'.deq[j] == m.deq[j])
  }

  lemma CopyExtends(s: State, s': State, id: nat)
    requires Inv(s) && CCopyOne(s, s', id)
    ensures Extends(s.m, s'.m)
    ensures exists j :: j !in s.m.deq && s'.m.deq.Keys == s.m.deq.Keys + {j}
  {
    hide SlotOf, ConsumerOk, Shape, Bounds, Contents, Tiles, PListed, CListed;
    ReadObject(s.m, s.conss[id]);
    hide Inv;
    var j := s.conss[id].from + |s.conss[id].got|;
    assert s'.m.deq.Keys == s.m.deq.Keys + {j};
  }

  lemma OtherExtends(s: State, s': State, id: nat, e: Event)
    requires Does(s, s', id, e) && !e.ECCopyOne?
    ensures s.m.enq <= s'.m.enq && s'.m.deq == s.m.deq
  {
    hide SlotOf, FreeWord, EntriesWord, Offer, Demand, CCopyOne;
  }

  /** Every object copied out is the only one for its position. */
  lemma StepExtends(s: State, s': State, id: nat, e: Event)
    requires Inv(s) && Does(s, s', id, e)
    ensures Extends(s.m, s'.m)
    ensures if e.ECCopyOne? then exists j :: j !in s.m.deq && s'.m.deq.Keys == s.m.deq.Keys + {j}
            else s'.m.deq == s.m.deq
  {
    if e.ECCopyOne? {
      hide Inv, CCopyOne;
      CopyExtends(s, s', id);
    } else {
      hide Inv, Does;
      OtherExtends(s, s', id, e);
    }
  }

  lemma ExtendsOn(a: Mem, b: Mem, c: Mem)
    requires Extends(a, b) && Extends(b, c)
    ensures Extends(a, c)
  {
  }

  lemma NextExtends(s: State, s': State)
    requires Inv(s) && Next(s, s')
    ensures Extends(s.m, s'.m)
  {
    hide Inv, NoAba, Does, Extends;
    var id, e :| Does(s, s', id, e) && NoAba(s, id, e);
    StepExtends(s, s', id, e);
  }

  lemma {:induction false} HistoryGrows(r: seq<State>, i: nat, j: nat)
    requires Run(r) && i <= j < |r|
    ensures Extends(r[i].m, r[j].m)
    decreases j - i
  {
    if i < j {
      var k := j - 1;
      assert Next(r[k], r[k + 1]);
      HistoryGrows(r, i, k);
      RunKeeps(r);
      hide Inv, Next, Extends, Run;
      NextExtends(r[k], r[j]);
      ExtendsOn(r[i].m, r[k].m, r[j].m);
    }
  }

  // ---------------------------------------------------------------- one owner for each slot

  ghost predicate PAt(s: State, id: nat, p: nat) {
    id in s.prods && s.prods[id].PCopy? && s.prods[id].from <= p < s.prods[id].from + s.prods[id].n
  }

  ghost predicate CAt(s: State, id: nat, p: nat) {
    id in s.conss && s.conss[id].CCopy? && s.conss[id].from <= p < s.conss[id].from + s.conss[id].n
  }

  /** Reservations in flight tile the stretch between tail and head: each position has one owner. */
  lemma OneOwner(r: seq<State>, i: nat, p: nat)
    requires Run(r) && i < |r|
    ensures r[i].m.pt <= p < r[i].m.ph <==> exists id :: PAt(r[i], id, p)
    ensures r[i].m.ct <= p < r[i].m.ch <==> exists id :: CAt(r[i], id, p)
    ensures forall a, b :: PAt(r[i], a, p) && PAt(r[i], b, p) ==> a == b
    ensures forall a, b :: CAt(r[i], a, p) && CAt(r[i], b, p) ==> a == b
  {
    RunKeeps(r);
    ProducerOwner(r[i], p);
    ConsumerOwner(r[i], p);
    hide Inv, PAt, CAt;
  }

  lemma ProducerOwner(s: State, p: nat)
    requires Inv(s)
    ensures s.m.pt <= p < s.m.ph <==> exists id :: PAt(s, id, p)
    ensures forall a, b :: PAt(s, a, p) && PAt(s, b, p) ==> a == b
  {
    hide Shape, Bounds, Contents, Tiles, ProducersOk, ConsumersOk, CListed;
    if s.m.pt <= p < s.m.ph {
      var r := TilesCover(s.pq, s.m.pt, s.m.ph, p);
      assert PAt(s, r.id, p);
    }
    forall a | PAt(s, a, p)
      ensures s.m.pt <= p < s.m.ph
    {
      TilesRange(s.pq, s.m.pt, s.m.ph, Resv(a, s.prods[a].from, s.prods[a].n));
    }
    forall a, b | PAt(s, a, p) && PAt(s, b, p)
      ensures a == b
    {
      TilesApart(s.pq, s.m.pt, s.m.ph, Resv(a, s.prods[a].from, s.prods[a].n),
        Resv(b, s.prods[b].from, s.prods[b].n), p);
    }
  }

  lemma ConsumerOwner(s: State, p: nat)
    requires Inv(s)
    ensures s.m.ct <= p < s.m.ch <==> exists id :: CAt(s, id, p)
    ensures forall a, b :: CAt(s, a, p) && CAt(s, b, p) ==> a == b
  {
    hide Shape, Bounds, Contents, Tiles, ProducersOk, ConsumersOk, PListed;
    if s.m.ct <= p < s.m.ch {
      var r := TilesCover(s.cq, s.m.ct, s.m.ch, p);
      assert CAt(s, r.id, p);
    }
    forall a | CAt(s, a, p)
      ensures s.m.ct <= p < s.m.ch
    {
      TilesRange(s.cq, s.m.ct, s.m.ch, Resv(a, s.conss[a].from, s.conss[a].n));
    }
    forall a, b | CAt(s, a, p) && CAt(s, b, p)
      ensures a == b
    {
      TilesApart(s.cq, s.m.ct, s.m.ch, Resv(a, s.conss[a].from, s.conss[a].n),
        Resv(b, s.conss[b].from, s.conss[b].n), p);
    }
  }

  /** No race on the slots: two producers in flight never write the same slot. */
  lemma WritersApart(r: seq<State>, i: nat, a: nat, p: nat, b: nat, q: nat)
    requires Run(r) && i < |r| && PAt(r[i], a, p) && PAt(r[i], b, q) && a != b
    ensures var s := r[i];
      && s.m.size > 0
      && SlotOf(s.m.size, s.prods[a].from, p - s.prods[a].from) != SlotOf(s.m.size, s.prods[b].from,
         q - s.prods[b].from)
  {
    hide Inv, Run, SlotOf;
    RunKeeps(r);
    var s := r[i];
    ProducerOwner(s, p);
    ProducerOwner(s, q);
    BoundsOf(s);
    hide Shape;
    PositionsApart(s.m, s.prods[a].from, p, s.prods[b].from, q);
  }

  /** No race on the slots: no consumer in flight reads a slot that a producer in flight writes. */
  lemma ReaderApart(r: seq<State>, i: nat, a: nat, p: nat, b: nat, q: nat)
    requires Run(r) && i < |r| && PAt(r[i], a, p) && CAt(r[i], b, q)
    ensures var s := r[i];
      && s.m.size > 0
      && SlotOf(s.m.size, s.prods[a].from, p - s.prods[a].from) != SlotOf(s.m.size, s.conss[b].from,
         q - s.conss[b].from)
  {
    hide Inv, Run, SlotOf;
    RunKeeps(r);
    var s := r[i];
    ProducerOwner(s, p);
    ConsumerOwner(s, q);
    BoundsOf(s);
    hide Shape;
    PositionsApart(s.m, s.prods[a].from, p, s.conss[b].from, q);
  }

  lemma BoundsOf(s: State)
    requires Inv(s)
    ensures Bounds(s.m) && Shape(s.m)
  {
  }

  lemma PositionsApart(m: Mem, f: nat, p: nat, g: nat, q: nat)
    requires Shape(m) && Bounds(m) && f <= p && g <= q && p != q && m.ct <= p < m.ph && m.ct <= q < m.ph
    ensures m.size > 0 && SlotOf(m.size, f, p - f) != SlotOf(m.size, g, q - g)
  {
    SlotIs(m.k, m.size, f, p - f);
    SlotIs(m.k, m.size, g, q - g);
    hide Pow2, SlotOf;
    SlotsApart(p, q, m.size);
  }

  // ---------------------------------------------------------------- the copies

  lemma SlotAgrees(m: Mem, from: nat, i: nat)
    requires Shape(m)
    ensures m.size > 0 && SlotOf(m.size, from, i) == SlotAt(m.size, from, i)
  {
    SlotIs(m.k, m.size, from, i);
  }

  /** The single steps of a producer that is not disturbed are, one after the other, what ENQUEUE_PTRS does at once. */
  lemma CopyStepStores(s: State, s': State, id: nat, was: seq<Obj>)
    requires Inv(s) && PCopyOne(s, s', id) && |was| == |s.m.slots|
    requires var p := s.prods[id];
      p.n <= |p.objs| && p.n <= |was| && p.i <= p.n && s.m.slots == StoredTo(was, p.from, p.objs[..p.n], p.i)
    ensures var p := s.prods[id];
      p.i + 1 <= p.n && s'.m.slots == StoredTo(was, p.from, p.objs[..p.n], p.i + 1) && s'.prods[id].i == p.i + 1
  {
    var p := s.prods[id];
    BoundsOf(s);
    SlotAgrees(s.m, p.from, p.i);
    hide Inv, Bounds, SlotOf, SlotAt, RingCopy.Stored;
    StoreOne(was, p.from, p.objs[..p.n], p.i);
  }

  /** The single steps of a consumer are what DEQUEUE_PTRS does at once: it gets the objects from its slots. */
  lemma CopyStepFetches(s: State, s': State, id: nat)
    requires Inv(s) && CCopyOne(s, s', id) && |s.m.slots| > 0
    requires var c := s.conss[id]; c.got == Fetched(s.m.slots, c.from, |c.got|)
    ensures var c := s.conss[id]; s'.m.slots == s.m.slots && s'.conss[id].got == Fetched(s.m.slots, c.from, |c.got| + 1)
  {
    BoundsOf(s);
    var c := s.conss[id];
    SlotAgrees(s.m, c.from, |c.got|);
    FetchOne(s.m.slots, c.from, |c.got|);
    hide Inv, Shape, Bounds, SlotOf, SlotAt, Fetched;
  }

  // ---------------------------------------------------------------- the wait for the tail

  /** Whoever reserved first is the one, and the only one, whose turn it is to publish. */
  lemma ProducerTurn(s: State)
    requires Inv(s) && s.pq != []
    ensures var id := s.pq[0].id;
      && id in s.prods && s.prods[id].PCopy? && s.prods[id].from == s.m.pt && Word(s.prods[id].from) == Word(s.m.pt)
      && s.pq[0] == Resv(id, s.prods[id].from, s.prods[id].n)
    ensures forall x :: x in s.prods && s.prods[x].PCopy? && Word(s.prods[x].from) == Word(s.m.pt) ==> x == s.pq[0].id
  {
    hide Shape, Bounds, Contents, ProducersOk, ConsumersOk, CListed, Alone;
    assert s.pq[0] in s.pq;
    BoundsOf(s);
    forall x | x in s.prods && s.prods[x].PCopy? && Word(s.prods[x].from) == Word(s.m.pt)
      ensures x == s.pq[0].id
    {
      TilesRange(s.pq, s.m.pt, s.m.ph, Resv(x, s.prods[x].from, s.prods[x].n));
      CloseBy(s.m, s.prods[x].from);
    }
  }

  lemma CloseBy(m: Mem, p: nat)
    requires Shape(m) && Bounds(m)
    ensures m.pt <= p < m.ph ==> (Word(p) == Word(m.pt) <==> p == m.pt)
    ensures m.ct <= p < m.ch ==> (Word(p) == Word(m.ct) <==> p == m.ct)
  {
    hide Pow2;
    if m.pt <= p < m.ph {
      WordsApart(p, m.pt);
    }
    if m.ct <= p < m.ch {
      WordsApart(p, m.ct);
    }
  }

  lemma ConsumerTurn(s: State)
    requires Inv(s) && s.cq != []
    ensures var id := s.cq[0].id;
      && id in s.conss && s.conss[id].CCopy? && s.conss[id].from == s.m.ct && Word(s.conss[id].from) == Word(s.m.ct)
      && s.cq[0] == Resv(id, s.conss[id].from, s.conss[id].n)
    ensures forall x :: x in s.conss && s.conss[x].CCopy? && Word(s.conss[x].from) == Word(s.m.ct) ==> x == s.cq[0].id
  {
    hide Shape, Bounds, Contents, ProducersOk, ConsumersOk, PListed, Alone;
    assert s.cq[0] in s.cq;
    BoundsOf(s);
    forall x | x in s.conss && s.conss[x].CCopy? && Word(s.conss[x].from) == Word(s.m.ct)
      ensures x == s.cq[0].id
    {
      TilesRange(s.cq, s.m.ct, s.m.ch, Resv(x, s.conss[x].from, s.conss[x].n));
      CloseBy(s.m, s.conss[x].from);
    }
  }

  /** What the oldest producer still has to copy. */
  ghost function ToCopy(s: State): nat {
    if s.pq != [] && s.pq[0].id in s.prods && s.prods[s.pq[0].id].PCopy? && s.prods[s.pq[0].id].i <= s.pq[0].n
    then s.pq[0].n - s.prods[s.pq[0].id].i else 0
  }

  ghost function ToTake(s: State): nat {
    if s.cq != [] && s.cq[0].id in s.conss && s.conss[s.cq[0].id].CCopy? && |s.conss[s.cq[0].id].got| <= s.cq[0].n
    then s.cq[0].n - |s.conss[s.cq[0].id].got| else 0
  }

  lemma ProducerIs(s: State, id: nat)
    requires Inv(s) && id in s.prods
    ensures ProducerOk(s.m, s.prods[id])
  {
  }

  lemma ConsumerIs(s: State, id: nat)
    requires Inv(s) && id in s.conss
    ensures ConsumerOk(s.m, s.conss[id]) && Contents(s.m)
  {
  }

  lemma HasObject(m: Mem, p: Producer)
    requires p.PCopy? && ProducerOk(m, p) && p.i < p.n
    ensures p.i < |p.objs|
  {
  }

  lemma CanCopy(s: State, id: nat) returns (s': State)
    requires Inv(s) && id in s.prods && s.prods[id].PCopy? && s.prods[id].i < s.prods[id].n
    ensures PCopyOne(s, s', id)
    ensures s' == s.(m := s'.m, prods := s.prods[id := s.prods[id].(i := s.prods[id].i + 1)])
    ensures s'.m.ph == s.m.ph && s'.m.ch == s.m.ch
  {
    hide Inv, Shape, Bounds, SlotOf, ProducerOk;
    var p := s.prods[id];
    ProducerIs(s, id);
    BoundsOf(s);
    WrittenObject(s.m, p);
    HasObject(s.m, p);
    s' := s.(m := s.m.(slots := s.m.slots[SlotOf(s.m.size, p.from, p.i) := p.objs[p.i]]),
      prods := s.prods[id := p.(i := p.i + 1)]);
  }

  lemma CanPublish(s: State, id: nat) returns (s': State)
    requires Inv(s) && id in s.prods && s.prods[id].PCopy? && s.prods[id].i == s.prods[id].n
    requires Word(s.prods[id].from) == Word(s.m.pt) && s.pq != []
    ensures PPublish(s, s', id)
    ensures s' == s.(m := s'.m, prods := s.prods - {id}, pq := s.pq[1..])
    ensures s'.m.ph == s.m.ph && s'.m.ch == s.m.ch
  {
    hide Inv, Word;
    var p := s.prods[id];
    s' := s.(m := s.m.(pt := p.from + p.n), prods := s.prods - {id}, pq := s.pq[1..]);
  }

  /** The producer whose turn it is can always copy, or publish, and gets nearer to its end. */
  lemma ProducerAdvances(s: State) returns (s': State)
    requires Inv(s) && s.pq != []
    ensures Inv(s') && Next(s, s') && s'.cq == s.cq && s'.conss == s.conss
    ensures s'.pq == s.pq[1..] || (s'.pq == s.pq && ToCopy(s') < ToCopy(s))
  {
    hide Inv, Word, PCopyOne, PPublish;
    ProducerTurn(s);
    var id := s.pq[0].id;
    TurnOk(s, id);
    var e := if s.prods[id].i < s.prods[id].n then EPCopyOne else EPPublish;
    if s.prods[id].i < s.prods[id].n {
      s' := CanCopy(s, id);
    } else {
      s' := CanPublish(s, id);
    }
    assert Does(s, s', id, e) && NoAba(s, id, e);
    StepKeeps(s, s', id, e);
  }

  lemma TurnOk(s: State, id: nat)
    requires Inv(s) && id in s.prods && s.prods[id].PCopy?
    ensures s.prods[id].i <= s.prods[id].n
  {
    assert ProducerOk(s.m, s.prods[id]);
  }

  lemma CanTake(s: State, id: nat) returns (s': State, v: Obj)
    requires Inv(s) && id in s.conss && s.conss[id].CCopy? && |s.conss[id].got| < s.conss[id].n
    ensures CCopyOne(s, s', id)
    ensures s' == s.(m := s'.m, conss := s.conss[id := s.conss[id].(got := s.conss[id].got + [v])])
    ensures s'.m.ph == s.m.ph && s'.m.ch == s.m.ch
  {
    hide Inv, Shape, Bounds, Contents, SlotOf, ConsumerOk;
    var c := s.conss[id];
    ConsumerIs(s, id);
    BoundsOf(s);
    ReadObject(s.m, c);
    v := s.m.slots[SlotOf(s.m.size, c.from, |c.got|)];
    s' := s.(m := s.m.(deq := s.m.deq[c.from + |c.got| := v]), conss := s.conss[id := c.(got := c.got + [v])]);
  }

  lemma CanFree(s: State, id: nat) returns (s': State)
    requires Inv(s) && id in s.conss && s.conss[id].CCopy? && |s.conss[id].got| == s.conss[id].n
    requires Word(s.conss[id].from) == Word(s.m.ct) && s.cq != []
    ensures CPublish(s, s', id)
    ensures s' == s.(m := s'.m, conss := s.conss - {id}, cq := s.cq[1..])
    ensures s'.m.ph == s.m.ph && s'.m.ch == s.m.ch
  {
    hide Inv, Word;
    var c := s.conss[id];
    s' := s.(m := s.m.(ct := c.from + c.n), conss := s.conss - {id}, cq := s.cq[1..]);
  }

  lemma ConsumerAdvances(s: State) returns (s': State)
    requires Inv(s) && s.cq != []
    ensures Inv(s') && Next(s, s') && s'.pq == s.pq && s'.prods == s.prods
    ensures s'.cq == s.cq[1..] || (s'.cq == s.cq && ToTake(s') < ToTake(s))
  {
    hide Inv, Word, CCopyOne, CPublish;
    ConsumerTurn(s);
    var id := s.cq[0].id;
    CTurnOk(s, id);
    var e := if |s.conss[id].got| < s.conss[id].n then ECCopyOne else ECPublish;
    if |s.conss[id].got| < s.conss[id].n {
      var v;
      s', v := CanTake(s, id);
    } else {
      s' := CanFree(s, id);
    }
    assert Does(s, s', id, e) && NoAba(s, id, e);
    StepKeeps(s, s', id, e);
  }

  lemma CTurnOk(s: State, id: nat)
    requires Inv(s) && id in s.conss && s.conss[id].CCopy?
    ensures |s.conss[id].got| <= s.conss[id].n
  {
    assert ConsumerOk(s.m, s.conss[id]);
  }

  /** A sequence of steps. */
  ghost predicate Path(r: seq<State>) {
    |r| > 0 && forall i :: 0 <= i < |r| - 1 ==> Next(r[i], r[i + 1])
  }

  lemma PathFrom(s: State, r: seq<State>)
    requires Path(r) && Next(s, r[0])
    ensures Path([s] + r) && ([s] + r)[|r|] == r[|r| - 1]
  {
    hide Next;
    var t := [s] + r;
    forall i | 0 <= i < |t| - 1
      ensures Next(t[i], t[i + 1])
    {
      if i > 0 {
        assert Next(r[i - 1], r[i - 1 + 1]);
      }
    }
  }

  /**
   The wait for the tail never deadlocks: from every state a run can be in, the threads that
   hold reservations can finish by their own steps alone.
   */
  lemma {:induction false} ProducersFinish(s: State) returns (r: seq<State>)
    requires Inv(s)
    ensures Path(r) && r[0] == s && r[|r| - 1].pq == []
    ensures Inv(r[|r| - 1]) && r[|r| - 1].cq == s.cq && r[|r| - 1].conss == s.conss
    decreases |s.pq|, ToCopy(s)
  {
    hide Inv, Next, ToCopy;
    if s.pq == [] {
      r := [s];
    } else {
      var s' := ProducerAdvances(s);
      var t := ProducersFinish(s');
      PathFrom(s, t);
      r := [s] + t;
    }
  }

  lemma {:induction false} ConsumersFinish(s: State) returns (r: seq<State>)
    requires Inv(s)
    ensures Path(r) && r[0] == s && r[|r| - 1].cq == []
    ensures Inv(r[|r| - 1]) && r[|r| - 1].pq == s.pq && r[|r| - 1].prods == s.prods
    decreases |s.cq|, ToTake(s)
  {
    hide Inv, Next, ToTake;
    if s.cq == [] {
      r := [s];
    } else {
      var s' := ConsumerAdvances(s);
      var t := ConsumersFinish(s');
      PathFrom(s, t);
      r := [s] + t;
    }
  }

  // ---------------------------------------------------------------- counts

  /**
   A producer that wins computed the true free count for the tail it read, and its grant fits
   the ring as it is now; a FIXED producer that wins has room for all its objects.
   */
  lemma WinnerCounts(r: seq<State>, i: nat, id: nat)
    requires Run(r) && i < |r| && id in r[i].prods && r[i].prods[id].PReady? && Fresh(r[i].m.ph, r[i].prods[id].from)
    requires r[i].m.sp || Word(r[i].m.ph) == Word(r[i].prods[id].from)
    ensures var m, p := r[i].m, r[i].prods[id];
      && p.from == m.ph
      && p.free == (m.size - 1) - (m.ph - p.seen) && p.seen <= m.ct
      && (p.n == if |p.objs| <= p.free then |p.objs| else p.free) && (p.beh == Fixed ==> p.n == |p.objs|)
      && p.n <= (m.size - 1) - (m.ph - m.ct)
  {
    RunKeeps(r);
    BoundsOf(r[i]);
    assert ProducerOk(r[i].m, r[i].prods[id]);
    HeadWon(r[i].m, r[i].prods[id]);
    hide Inv, Shape, Bounds, FreeWord;
  }

  lemma TakerCounts(r: seq<State>, i: nat, id: nat)
    requires Run(r) && i < |r| && id in r[i].conss && r[i].conss[id].CReady? && Fresh(r[i].m.ch, r[i].conss[id].from)
    requires r[i].m.sc || Word(r[i].m.ch) == Word(r[i].conss[id].from)
    ensures var m, c := r[i].m, r[i].conss[id];
      && c.from == m.ch
      && c.entries == c.seen - m.ch && c.seen <= m.pt
      && (c.n == if c.max <= c.entries then c.max else c.entries) && (c.beh == Fixed ==> c.n == c.max)
      && c.n <= m.pt - m.ch
  {
    RunKeeps(r);
    BoundsOf(r[i]);
    assert ConsumerOk(r[i].m, r[i].conss[id]);
    TailWon(r[i].m, r[i].conss[id]);
    hide Inv, Shape, Bounds, EntriesWord;
  }

  ghost function Room(m: Mem): int { (m.size - 1) - (m.ph - m.ct) }

  ghost function Available(m: Mem): int { m.pt - m.ch }

  /** A FIXED enqueue of n objects that loaded the head `from` and now reads the tail gets nothing. */
  ghost predicate Refused(m: Mem, from: nat, n: nat) { Grant(n, FreeWord(m.size, m.ct, from), Fixed) == 0 }

  ghost predicate Denied(m: Mem, from: nat, n: nat) { Grant(n, EntriesWord(m.pt, from), Fixed) == 0 }

  /** A word that counts from a head which is behind by `stale` positions falls short of the true number. */
  lemma StaleBy(room: int, stale: nat)
    requires 0 <= room < WORD
    ensures (room + stale) % WORD >= room <==> room + stale % WORD < WORD
  {
    var q, e := stale / WORD, stale % WORD;
    assert stale == q * WORD + e;
    if room + e < WORD {
      ModUnique(room + stale, WORD, q, room + e);
    } else {
      ModUnique(room + stale, WORD, q + 1, room + e - WORD);
    }
  }

  /**
   A FIXED enqueue is refused exactly if it asks for more than the free word, and every refusal is
   right exactly if the room and the positions by which the head it loaded is behind, modulo 2^32,
   come to less than 2^32. A head that is still the present one is right about every request.
   */
  lemma FixedRefusal(r: seq<State>, i: nat, id: nat)
    requires Run(r) && i < |r| && id in r[i].prods && r[i].prods[id].PLoaded? && r[i].prods[id].beh == Fixed
    ensures var m, p := r[i].m, r[i].prods[id];
      && (Offer(m, p).n == 0 <==> Refused(m, p.from, |p.objs|))
      && (forall n: nat :: Refused(m, p.from, n) <==> n == 0 || n > ((m.size - 1) + m.ct - p.from) % WORD)
      && ((forall n: nat :: 0 < n < WORD && Refused(m, p.from, n) ==> n > Room(m)) <==>
         Room(m) + (m.ph - p.from) % WORD < WORD)
      && (p.from == m.ph ==> forall n: nat :: n > 0 ==> (Refused(m, p.from, n) <==> n > Room(m)))
  {
    hide Inv, Run, Shape, Bounds, ProducerOk, Offer, Room, Refused;
    RunKeeps(r);
    BoundsOf(r[i]);
    ProducerIs(r[i], id);
    RefusalAt(r[i].m, r[i].prods[id]);
  }

  lemma RefusalAt(m: Mem, p: Producer)
    requires Shape(m) && Bounds(m) && p.PLoaded? && p.beh == Fixed && ProducerOk(m, p)
    ensures Offer(m, p).n == 0 <==> Refused(m, p.from, |p.objs|)
    ensures forall n: nat :: Refused(m, p.from, n) <==> n == 0 || n > ((m.size - 1) + m.ct - p.from) % WORD
    ensures (forall n: nat :: 0 < n < WORD && Refused(m, p.from, n) ==> n > Room(m)) <==>
            Room(m) + (m.ph - p.from) % WORD < WORD
    ensures p.from == m.ph ==> forall n: nat :: n > 0 ==> (Refused(m, p.from, n) <==> n > Room(m))
  {
    FreeIs(m.size, m.ct, p.from);
    hide FreeWord, Pow2, Holds;
    var word := ((m.size - 1) + m.ct - p.from) % WORD;
    StaleBy(Room(m), m.ph - p.from);
    if word < Room(m) {
      assert Refused(m, p.from, word + 1);
    }
  }

  lemma FixedShortage(r: seq<State>, i: nat, id: nat)
    requires Run(r) && i < |r| && id in r[i].conss && r[i].conss[id].CLoaded? && r[i].conss[id].beh == Fixed
    ensures var m, c := r[i].m, r[i].conss[id];
      && (Demand(m, c).n == 0 <==> Denied(m, c.from, c.max))
      && (forall n: nat :: Denied(m, c.from, n) <==> n == 0 || n > (m.pt - c.from) % WORD)
      && ((forall n: nat :: 0 < n < WORD && Denied(m, c.from, n) ==> n > Available(m))
          <==> Available(m) + (m.ch - c.from) % WORD < WORD)
      && (c.from == m.ch ==> forall n: nat :: n > 0 ==> (Denied(m, c.from, n) <==> n > Available(m)))
  {
    hide Inv, Run, Shape, Bounds, ConsumerOk, Demand, Available, Denied;
    RunKeeps(r);
    BoundsOf(r[i]);
    ConsumerIs(r[i], id);
    ShortageAt(r[i].m, r[i].conss[id]);
  }

  lemma ShortageAt(m: Mem, c: Consumer)
    requires Shape(m) && Bounds(m) && c.CLoaded? && c.beh == Fixed && ConsumerOk(m, c)
    ensures Demand(m, c).n == 0 <==> Denied(m, c.from, c.max)
    ensures forall n: nat :: Denied(m, c.from, n) <==> n == 0 || n > (m.pt - c.from) % WORD
    ensures (forall n: nat :: 0 < n < WORD && Denied(m, c.from, n) ==> n > Available(m))
            <==> Available(m) + (m.ch - c.from) % WORD < WORD
    ensures c.from == m.ch ==> forall n: nat :: n > 0 ==> (Denied(m, c.from, n) <==> n > Available(m))
  {
    EntriesIs(m.pt, c.from);
    hide EntriesWord, Pow2, Holds;
    var word := (m.pt - c.from) % WORD;
    StaleBy(Available(m), m.ch - c.from);
    if word < Available(m) {
      assert Denied(m, c.from, word + 1);
    }
  }

  /**
   The free count is documented as always between 0 and the capacity. It is, exactly when the
   consumer tail that was read lies up to a capacity short of a multiple of 2^32 positions past
   the head that was loaded before it; with a head less than 2^32 - capacity stale, exactly
   when the tail has not passed the head.
   */
  lemma FreeWithinCapacity(size: nat, seen: nat, from: nat)
    requires 1 <= size <= 0x4000_0000
    ensures FreeWord(size, seen, from) <= size - 1 <==> (from - seen) % WORD <= size - 1
    ensures from <= seen + (size - 1) && seen - from <= WORD - size ==>
            (FreeWord(size, seen, from) <= size - 1 <==> seen <= from)
  {
    hide FreeWord;
    FreeIs(size, seen, from);
    var d := from - seen;
    var q, e := d / WORD, d % WORD;
    assert d == q * WORD + e;
    if e <= size - 1 {
      ModAdd(-q, WORD, (size - 1) - e);
    } else {
      ModAdd(-q - 1, WORD, (size - 1) - e + WORD);
    }
  }

  /**
   So is the entry count. It is, exactly when the producer tail that was read is at most a
   capacity, modulo 2^32, past the head that was loaded before it.
   */
  lemma EntriesWithinCapacity(size: nat, seen: nat, from: nat)
    requires 1 <= size <= 0x4000_0000
    ensures EntriesWord(seen, from) <= size - 1 <==> (seen - from) % WORD <= size - 1
    ensures from <= seen < from + WORD ==> (EntriesWord(seen, from) <= size - 1 <==> seen - from <= size - 1)
  {
    EntriesIs(seen, from);
  }

  // ---------------------------------------------------------------- rte_ring_count beside other threads

  /** What rte_ring_count makes of the two tails it reads. */
  ghost function CountRead(size: nat, prodTail: nat, consTail: nat): nat
    requires size > 0
  {
    var count := BitAnd(Sub32(Word(prodTail), Word(consTail)), size - 1);
    if count > size - 1 then size - 1 else count
  }

  ghost predicate TailsGrow(m: Mem, m': Mem) {
    m.pt <= m'.pt && m.ct <= m'.ct && m.size == m'.size && m.k == m'.k
  }

  lemma StepTails(s: State, s': State, id: nat, e: Event)
    requires Inv(s) && Does(s, s', id, e)
    ensures TailsGrow(s.m, s'.m)
  {
    hide Inv, ProducerOk, ConsumerOk, SlotOf, FreeWord, EntriesWord, Offer, Demand;
    if e.EPPublish? {
      ProducerIs(s, id);
      PublishRises(s.m, s.prods[id]);
    } else if e.ECPublish? {
      ConsumerIs(s, id);
      FreeRises(s.m, s.conss[id]);
    }
  }

  lemma PublishRises(m: Mem, p: Producer)
    requires p.PCopy? && ProducerOk(m, p)
    ensures m.pt <= p.from + p.n
  {
  }

  lemma FreeRises(m: Mem, c: Consumer)
    requires c.CCopy? && ConsumerOk(m, c)
    ensures m.ct <= c.from + c.n
  {
  }

  lemma NextTails(s: State, s': State)
    requires Inv(s) && Next(s, s')
    ensures TailsGrow(s.m, s'.m)
  {
    hide Inv, NoAba, Does, TailsGrow;
    var id, e :| Does(s, s', id, e) && NoAba(s, id, e);
    StepTails(s, s', id, e);
  }

  lemma {:induction false} TailsRise(r: seq<State>, i: nat, j: nat)
    requires Run(r) && i <= j < |r|
    ensures TailsGrow(r[i].m, r[j].m)
    decreases j - i
  {
    if i < j {
      var k := j - 1;
      assert Next(r[k], r[k + 1]);
      hide Inv, Next, Run;
      TailsRise(r, i, k);
      RunKeeps(r);
      NextTails(r[k], r[j]);
    }
  }

  /**
   rte_ring_count reads the producer tail in state i and the consumer tail in a later state j. If
   the consumers have not passed the producer tail it read, and only then, the result is how many
   of the entries published by i were not freed by j: no more than there were at either moment.
   Otherwise it is off by a multiple of the size.
   */
  lemma CountBetween(r: seq<State>, i: nat, j: nat)
    requires Run(r) && i <= j < |r|
    ensures r[j].m.size == r[i].m.size > 0
    ensures var m, m', c := r[i].m, r[j].m, CountRead(r[i].m.size, r[i].m.pt, r[j].m.ct);
      && c == (m.pt - m'.ct) % m.size
      && (c == m.pt - m'.ct <==> m'.ct <= m.pt)
      && (m'.ct <= m.pt ==> c <= m.pt - m.ct && c <= m'.pt - m'.ct)
  {
    hide Inv, Run, Pow2, CountRead, Shape;
    TailsRise(r, i, j);
    RunKeeps(r);
    BoundsOf(r[i]);
    SizeOf(r[i].m);
    CountWord(r[i].m.k, r[i].m.size, r[i].m.pt, r[j].m.ct);
  }

  lemma SizeOf(m: Mem)
    requires Shape(m)
    ensures m.k <= 30 && m.size == Pow2(m.k) && 1 <= m.size <= 0x4000_0000
  {
  }

  lemma CountWord(k: nat, size: nat, pt: nat, ct: nat)
    requires k <= 30 && size == Pow2(k) && 1 <= size <= 0x4000_0000
    ensures CountRead(size, pt, ct) == (pt - ct) % size
    ensures pt - ct < size ==> (CountRead(size, pt, ct) == pt - ct <==> ct <= pt)
  {
    EntriesIs(pt, ct);
    var w := Sub32(Word(pt), Word(ct));
    MaskIsMod(w, k);
    hide BitAnd;
    Pow2Add(k, 32 - k);
    WordIsPow2();
    hide Pow2;
    ModOfMod(pt - ct, size, Pow2(32 - k));
    if 0 <= pt - ct < size {
      ModUnique(pt - ct, size, 0, pt - ct);
    }
  }

  lemma ModOfMod(x: int, a: int, b: int)
    requires a > 0 && b > 0 && a * b == WORD
    ensures x % WORD % a == x % a
  {
    var q, e := x / WORD, x % WORD;
    assert x == q * WORD + e;
    MulInto(q, a, b);
    assert q * WORD == (q * b) * a;
    ModAdd(q * b, a, e);
  }
}
