/**
 Whole calls of the ring: from the step with which a thread begins an enqueue or a dequeue to the
 state in which it is gone, over any run and whatever the other threads do in between. The laws are
 stated over the states of the run alone, by what was read in them and where the heads and tails
 stood; they do not use the steps. In particular a compare-and-set that is lost ends no call.
 */
module RingCalls {
  import opened Powers
  import opened RingProtocol

  // ---------------------------------------------------------------- what a call may end with

  /** What a call for `max` gets of `room`: all it asked for, or else all there is, or else nothing. */
  ghost predicate Gets(max: nat, beh: Behavior, room: nat, n: nat) {
    && (max <= room ==> n == max)
    && (max > room && beh == Variable ==> n == room)
    && (max > room && beh == Fixed ==> n == 0)
  }

  /** The free entries that follow from the consumer tail in `m` and a head read before, modulo 2^32. */
  ghost function FreeSeen(m: Mem, from: nat): nat { (m.size - 1 + m.ct - from) % WORD }

  ghost function EntriesSeen(m: Mem, from: nat): nat { (m.pt - from) % WORD }

  /** In the step after state k thread `id` moves the producer head. */
  ghost predicate MovesHead(r: seq<State>, k: nat, id: nat) {
    && k + 1 < |r| && id in r[k].prods && id in r[k + 1].prods
    && r[k].prods[id] != r[k + 1].prods[id] && r[k].m.ph != r[k + 1].m.ph
  }

  ghost predicate MovesConsHead(r: seq<State>, k: nat, id: nat) {
    && k + 1 < |r| && id in r[k].conss && id in r[k + 1].conss
    && r[k].conss[id] != r[k + 1].conss[id] && r[k].m.ch != r[k + 1].m.ch
  }

  /** Thread `id` begins an enqueue with the step after state i and is gone in state j, not before. */
  ghost predicate EnqueueCall(r: seq<State>, i: nat, j: nat, id: nat, objs: seq<Obj>, beh: Behavior) {
    && Run(r) && i < j < |r| && Does(r[i], r[i + 1], id, EPBegin(objs, beh))
    && (forall k :: i < k < j ==> id in r[k].prods) && id !in r[j].prods
  }

  ghost predicate DequeueCall(r: seq<State>, i: nat, j: nat, id: nat, max: nat, beh: Behavior) {
    && Run(r) && i < j < |r| && Does(r[i], r[i + 1], id, ECBegin(max, beh))
    && (forall k :: i < k < j ==> id in r[k].conss) && id !in r[j].conss
  }

  /**
   The head was read in state a, the tail in t, and in c the head still stood there and was moved
   by what the free entries allow, once; the objects are enqueued in order and published.
   */
  ghost predicate Enqueued(r: seq<State>, i: nat, j: nat, id: nat, objs: seq<Obj>, beh: Behavior,
      a: nat, t: nat, c: nat, n: nat) {
    && i < a < t < c < j < |r| && 1 <= n <= |objs|
    && var from := r[a].m.ph;
       && Gets(|objs|, beh, FreeSeen(r[t].m, from), n)
       && r[c].m.ph == from && r[c + 1].m.ph == from + n
       && MovesHead(r, c, id) && (forall k :: i <= k < j && MovesHead(r, k, id) ==> k == c)
       && from + n <= |r[j].m.enq| && r[j].m.enq[from..from + n] == objs[..n]
       && r[j].m.pt == from + n
  }

  /** The head was read in state a and the tail in the last one, and they leave too little. */
  ghost predicate EnqueuedNone(r: seq<State>, i: nat, j: nat, id: nat, objs: seq<Obj>, beh: Behavior, a: nat) {
    && i < a < j - 1 < |r|
    && (forall k :: i <= k < j ==> !MovesHead(r, k, id))
    && var free := FreeSeen(r[j - 1].m, r[a].m.ph);
       objs == [] || (beh == Fixed && |objs| > free) || (beh == Variable && free == 0)
  }

  ghost predicate Dequeued(r: seq<State>, i: nat, j: nat, id: nat, max: nat, beh: Behavior,
      a: nat, t: nat, c: nat, n: nat) {
    && i < a < t < c < j < |r| && 1 <= n <= max
    && var from := r[a].m.ch;
       && Gets(max, beh, EntriesSeen(r[t].m, from), n)
       && r[c].m.ch == from && r[c + 1].m.ch == from + n
       && MovesConsHead(r, c, id) && (forall k :: i <= k < j && MovesConsHead(r, k, id) ==> k == c)
       && from + n <= |r[j].m.enq|
       && id in r[j - 1].conss && r[j - 1].conss[id] == CCopy(from, n, r[j].m.enq[from..from + n])
       && r[j].m.ct == from + n
  }

  ghost predicate DequeuedNone(r: seq<State>, i: nat, j: nat, id: nat, max: nat, beh: Behavior, a: nat) {
    && i < a < j - 1 < |r|
    && (forall k :: i <= k < j ==> !MovesConsHead(r, k, id))
    && var entries := EntriesSeen(r[j - 1].m, r[a].m.ch);
       max == 0 || (beh == Fixed && max > entries) || (beh == Variable && entries == 0)
  }

  // ---------------------------------------------------------------- one step of a producer

  /** A producer's own step, by what it changes; `q` is what becomes of it, if it is still there. */
  ghost predicate ProducerMade(m: Mem, m': Mem, p: Producer, q: Producer) {
    match p
    case PStart(objs, beh) => m' == m && q == PLoaded(objs, beh, m.ph)
    case PLoaded(objs, beh, from) =>
      && m' == m && q.PReady? && q.objs == objs && q.beh == beh && q.from == from
      && q.n >= 1 && Gets(|objs|, beh, FreeSeen(m, from), q.n)
    case PReady(objs, beh, from, _, n, _) =>
      || (m.ph == from && m'.ph == from + n && q == PCopy(objs, from, n, 0))
      || (m' == m && m.ph > from && q == PStart(objs, beh))
    case PCopy(objs, from, n, i) => m'.ph == m.ph && q == PCopy(objs, from, n, i + 1)
  }

  ghost predicate ProducerLeft(m: Mem, m': Mem, p: Producer) {
    || (p.PLoaded? && m' == m && Gets(|p.objs|, p.beh, FreeSeen(m, p.from), 0))
    || (p.PCopy? && m'.ph == m.ph && m'.enq == m.enq && m'.pt == p.from + p.n)
  }

  lemma GrantGets(max: nat, room: nat, beh: Behavior)
    ensures Gets(max, beh, room, Grant(max, room, beh))
  {
  }

  lemma SizeWithin(s: State)
    requires Inv(s)
    ensures 1 <= s.m.size <= 0x4000_0000
  {
    hide Bounds, Contents, Tiles, PListed, CListed, ProducersOk, ConsumersOk, Pow2;
  }

  lemma OfferGets(s: State, id: nat)
    requires Inv(s) && id in s.prods && s.prods[id].PLoaded?
    ensures Gets(|s.prods[id].objs|, s.prods[id].beh, FreeSeen(s.m, s.prods[id].from), Offer(s.m, s.prods[id]).n)
  {
    hide Inv, Gets, Grant, FreeWord, Bounds, Contents;
    var p := s.prods[id];
    SizeWithin(s);
    hide Shape;
    FreeIs(s.m.size, s.m.ct, p.from);
    GrantGets(|p.objs|, FreeWord(s.m.size, s.m.ct, p.from), p.beh);
  }

  lemma MoveMade(s: State, s': State, id: nat)
    requires Inv(s) && PMoveHead(s, s', id) && Fresh(s.m.ph, s.prods[id].from)
    ensures id in s'.prods && ProducerMade(s.m, s'.m, s.prods[id], s'.prods[id])
  {
    var p := s.prods[id];
    assert ProducerOk(s.m, p) && Shape(s.m) && Bounds(s.m);
    hide Inv, Shape, Bounds, Tiles, PListed, CListed;
    if s.m.sp || Word(s.m.ph) == Word(p.from) {
      HeadWon(s.m, p);
    }
  }

  /** A step of another thread, or of a consumer, leaves a producer alone. */
  lemma ProducerSteps(s: State, s': State, x: nat, e: Event, id: nat)
    requires Inv(s) && Does(s, s', x, e) && NoAba(s, x, e) && id in s.prods
    ensures id in s'.prods && s'.prods[id] != s.prods[id] ==> ProducerMade(s.m, s'.m, s.prods[id], s'.prods[id])
    ensures id !in s'.prods ==> ProducerLeft(s.m, s'.m, s.prods[id])
  {
    hide Inv, Fresh, ProducerMade, Gets, FreeSeen;
    if x == id && ByProducer(e) {
      OwnProducerStep(s, s', id, e);
    }
  }

  lemma OwnProducerStep(s: State, s': State, id: nat, e: Event)
    requires Inv(s) && ByProducer(e) && Does(s, s', id, e) && NoAba(s, id, e) && id in s.prods
    ensures id in s'.prods ==> ProducerMade(s.m, s'.m, s.prods[id], s'.prods[id])
    ensures id !in s'.prods ==> ProducerLeft(s.m, s'.m, s.prods[id])
  {
    hide Inv, Fresh, Gets, FreeSeen, SlotOf, Grant;
    match e
    case EPBegin(objs, beh) =>
    case EPLoadHead =>
    case EPReadTail => OfferGets(s, id);
    case EPMoveHead => MoveMade(s, s', id);
    case EPCopyOne =>
    case EPPublish =>
  }

  // ---------------------------------------------------------------- a whole enqueue

  /** What a producer in its call has behind it in state k, with the states in which it read and moved. */
  ghost predicate EnqueueSoFar(r: seq<State>, i: nat, k: nat, id: nat, objs: seq<Obj>, beh: Behavior,
      a: nat, t: nat, c: nat) {
    && i < k < |r| && id in r[k].prods
    && match r[k].prods[id]
       case PStart(o, b) => o == objs && b == beh && HeadUnmoved(r, i, k, id)
       case PLoaded(o, b, from) =>
         o == objs && b == beh && HeadUnmoved(r, i, k, id) && i < a < k && r[a].m.ph == from
       case PReady(o, b, from, _, n, _) =>
         && o == objs && b == beh && HeadUnmoved(r, i, k, id) && i < a < t < k && r[a].m.ph == from
         && n >= 1 && Gets(|objs|, beh, FreeSeen(r[t].m, from), n)
       case PCopy(o, from, n, _) =>
         && o == objs && i < a < t < c < k && r[a].m.ph == from
         && n >= 1 && Gets(|objs|, beh, FreeSeen(r[t].m, from), n)
         && HeadMoved(r, i, k, id, c) && r[c].m.ph == from && r[c + 1].m.ph == from + n
  }

  ghost predicate HeadUnmoved(r: seq<State>, i: nat, j: nat, id: nat) {
    forall k :: i <= k < j ==> !MovesHead(r, k, id)
  }

  ghost predicate HeadMoved(r: seq<State>, i: nat, j: nat, id: nat, c: nat) {
    MovesHead(r, c, id) && forall k :: i <= k < j && MovesHead(r, k, id) ==> k == c
  }

  lemma StillUnmoved(r: seq<State>, i: nat, j: nat, id: nat)
    requires HeadUnmoved(r, i, j, id) && i <= j && !MovesHead(r, j, id)
    ensures HeadUnmoved(r, i, j + 1, id)
  {
    hide MovesHead;
  }

  lemma FirstMove(r: seq<State>, i: nat, j: nat, id: nat)
    requires HeadUnmoved(r, i, j, id) && i <= j && MovesHead(r, j, id)
    ensures HeadMoved(r, i, j + 1, id, j)
  {
    hide MovesHead;
  }

  lemma NoSecondMove(r: seq<State>, i: nat, j: nat, id: nat, c: nat)
    requires HeadMoved(r, i, j, id, c) && i <= j && !MovesHead(r, j, id)
    ensures HeadMoved(r, i, j + 1, id, c)
  {
    hide MovesHead;
  }

  lemma NextOf(r: seq<State>, k: nat) returns (x: nat, e: Event)
    requires Run(r) && k + 1 < |r|
    ensures Inv(r[k]) && Does(r[k], r[k + 1], x, e) && NoAba(r[k], x, e)
  {
    hide Inv, Does, NoAba, Init;
    RunKeeps(r);
    x, e :| Does(r[k], r[k + 1], x, e) && NoAba(r[k], x, e);
  }

  /** One step more; the states read and moved in are carried on or filled in. */
  lemma EnqueueGoesOn(r: seq<State>, i: nat, k: nat, id: nat, objs: seq<Obj>, beh: Behavior, a: nat, t: nat, c: nat)
    returns (a': nat, t': nat, c': nat)
    requires Run(r) && k + 1 < |r| && EnqueueSoFar(r, i, k, id, objs, beh, a, t, c) && id in r[k + 1].prods
    ensures EnqueueSoFar(r, i, k + 1, id, objs, beh, a', t', c')
  {
    hide Run, Inv, Does, NoAba, Gets, FreeSeen, HeadUnmoved, HeadMoved;
    var x, e := NextOf(r, k);
    ProducerSteps(r[k], r[k + 1], x, e, id);
    var p, q := r[k].prods[id], r[k + 1].prods[id];
    a' := if p.PStart? && q.PLoaded? then k else a;
    t' := if p.PLoaded? && q.PReady? then k else t;
    c' := if p.PReady? && q.PCopy? then k else c;
    if p.PCopy? {
      NoSecondMove(r, i, k, id, c);
    } else if p.PReady? && q.PCopy? {
      FirstMove(r, i, k, id);
    } else {
      StillUnmoved(r, i, k, id);
    }
  }

  lemma {:induction false} EnqueueBehind(r: seq<State>, i: nat, j: nat, k: nat, id: nat, objs: seq<Obj>, beh: Behavior)
    returns (a: nat, t: nat, c: nat)
    requires EnqueueCall(r, i, j, id, objs, beh) && i < k < j
    ensures EnqueueSoFar(r, i, k, id, objs, beh, a, t, c)
  {
    hide Run, EnqueueSoFar;
    if k == i + 1 {
      EnqueueBegun(r, i, id, objs, beh);
      a, t, c := 0, 0, 0;
    } else {
      a, t, c := EnqueueBehind(r, i, j, k - 1, id, objs, beh);
      a, t, c := EnqueueGoesOn(r, i, k - 1, id, objs, beh, a, t, c);
    }
  }

  lemma EnqueueBegun(r: seq<State>, i: nat, id: nat, objs: seq<Obj>, beh: Behavior)
    requires i + 1 < |r| && Does(r[i], r[i + 1], id, EPBegin(objs, beh))
    ensures EnqueueSoFar(r, i, i + 1, id, objs, beh, 0, 0, 0)
  {
  }

  /** An in-flight producer's objects are enqueued from its start on. */
  lemma CopyKnows(s: State, id: nat)
    requires Inv(s) && id in s.prods && s.prods[id].PCopy?
    ensures var p := s.prods[id];
      1 <= p.n <= |p.objs| && p.from + p.n <= |s.m.enq| && s.m.enq[p.from..p.from + p.n] == p.objs[..p.n]
  {
    assert ProducerOk(s.m, s.prods[id]);
    hide Inv;
  }

  /**
   Every enqueue that ends has either moved the head once, by what the free entries it computed
   allow, and then its objects are in the queue, in order, from where the head stood; or it was
   refused by a head and a tail that it read, and has moved nothing. Losing a race ends no call.
   */
  lemma EnqueueEnds(r: seq<State>, i: nat, j: nat, id: nat, objs: seq<Obj>, beh: Behavior)
    requires EnqueueCall(r, i, j, id, objs, beh)
    ensures || (exists a, t, c, n :: Enqueued(r, i, j, id, objs, beh, a, t, c, n))
            || (exists a :: EnqueuedNone(r, i, j, id, objs, beh, a))
  {
    hide Run, Inv, Does, NoAba, FreeSeen;
    var h := j - 1;
    if h == i {
      EnqueueBegun(r, i, id, objs, beh);
      assert false;
    }
    var a, t, c := EnqueueBehind(r, i, j, h, id, objs, beh);
    var x, e := NextOf(r, h);
    ProducerSteps(r[h], r[h + 1], x, e, id);
    var p := r[h].prods[id];
    if p.PCopy? {
      NoSecondMove(r, i, h, id, c);
      CopyKnows(r[h], id);
      assert Enqueued(r, i, j, id, objs, beh, a, t, c, p.n);
    } else {
      StillUnmoved(r, i, h, id);
      assert EnqueuedNone(r, i, j, id, objs, beh, a);
    }
  }

  // ---------------------------------------------------------------- a race that is lost

  lemma HeadStep(s: State, s': State, x: nat, e: Event)
    requires Inv(s) && Does(s, s', x, e) && NoAba(s, x, e)
    ensures s'.m.ph != s.m.ph ==> x in s.prods && x in s'.prods && s'.prods[x] != s.prods[x]
    ensures s'.m.ch != s.m.ch ==> x in s.conss && x in s'.conss && s'.conss[x] != s.conss[x]
  {
    hide Inv, Fresh, SlotOf;
  }

  /** A head that stands elsewhere has been moved by some thread. */
  lemma {:induction false} SomeoneMoved(r: seq<State>, a: nat, k: nat)
    requires Run(r) && a <= k < |r|
    ensures r[a].m.ph != r[k].m.ph ==> exists l, x :: a <= l < k && MovesHead(r, l, x)
    ensures r[a].m.ch != r[k].m.ch ==> exists l, x :: a <= l < k && MovesConsHead(r, l, x)
  {
    hide Run, Inv, Does, NoAba;
    if a < k {
      SomeoneMoved(r, a, k - 1);
      var h := k - 1;
      var x, e := NextOf(r, h);
      HeadStep(r[h], r[k], x, e);
      assert r[h].m.ph != r[k].m.ph ==> MovesHead(r, h, x);
      assert r[h].m.ch != r[k].m.ch ==> MovesConsHead(r, h, x);
    }
  }

  /** A call starts over only if another call has moved the head since this one read it. */
  lemma EnqueueLost(r: seq<State>, i: nat, j: nat, id: nat, objs: seq<Obj>, beh: Behavior, k: nat)
    requires EnqueueCall(r, i, j, id, objs, beh) && i < k && k + 1 < j
    requires r[k].prods[id].PReady? && r[k + 1].prods[id].PStart?
    ensures r[k + 1].prods[id] == PStart(objs, beh)
    ensures exists l, x :: i < l < k && MovesHead(r, l, x) && x != id
  {
    hide Run, Inv, Does, NoAba, Gets, FreeSeen;
    var a, t, c := EnqueueBehind(r, i, j, k, id, objs, beh);
    var x, e := NextOf(r, k);
    ProducerSteps(r[k], r[k + 1], x, e, id);
    SomeoneMoved(r, a, k);
    var l, y :| a <= l < k && MovesHead(r, l, y);
    assert y != id;
  }

  // ---------------------------------------------------------------- one step of a consumer

  ghost predicate ConsumerMade(m: Mem, m': Mem, p: Consumer, q: Consumer) {
    match p
    case CStart(max, beh) => m' == m && q == CLoaded(max, beh, m.ch)
    case CLoaded(max, beh, from) =>
      && m' == m && q.CReady? && q.max == max && q.beh == beh && q.from == from
      && q.n >= 1 && Gets(max, beh, EntriesSeen(m, from), q.n)
    case CReady(max, beh, from, _, n, _) =>
      || (m.ch == from && m'.ch == from + n && q == CCopy(from, n, []))
      || (m' == m && m.ch > from && q == CStart(max, beh))
    case CCopy(from, n, _) => m'.ch == m.ch && q.CCopy? && q.from == from && q.n == n
  }

  ghost predicate ConsumerLeft(m: Mem, m': Mem, p: Consumer) {
    || (p.CLoaded? && m' == m && Gets(p.max, p.beh, EntriesSeen(m, p.from), 0))
    || (p.CCopy? && |p.got| == p.n && m'.ch == m.ch && m'.enq == m.enq && m'.ct == p.from + p.n)
  }

  lemma DemandGets(s: State, id: nat)
    requires Inv(s) && id in s.conss && s.conss[id].CLoaded?
    ensures Gets(s.conss[id].max, s.conss[id].beh, EntriesSeen(s.m, s.conss[id].from), Demand(s.m, s.conss[id]).n)
  {
    hide Inv, Shape, Gets, Grant;
    var p := s.conss[id];
    EntriesIs(s.m.pt, p.from);
    GrantGets(p.max, EntriesWord(s.m.pt, p.from), p.beh);
  }

  lemma TakeMade(s: State, s': State, id: nat)
    requires Inv(s) && CMoveHead(s, s', id) && Fresh(s.m.ch, s.conss[id].from)
    ensures id in s'.conss && ConsumerMade(s.m, s'.m, s.conss[id], s'.conss[id])
  {
    var p := s.conss[id];
    assert ConsumerOk(s.m, p) && Shape(s.m) && Bounds(s.m);
    hide Inv, Shape, Bounds, Tiles, PListed, CListed;
    if s.m.sc || Word(s.m.ch) == Word(p.from) {
      TailWon(s.m, p);
    }
  }

  /** A step of another thread, or of a producer, leaves a consumer alone. */
  lemma ConsumerSteps(s: State, s': State, x: nat, e: Event, id: nat)
    requires Inv(s) && Does(s, s', x, e) && NoAba(s, x, e) && id in s.conss
    ensures id in s'.conss && s'.conss[id] != s.conss[id] ==> ConsumerMade(s.m, s'.m, s.conss[id], s'.conss[id])
    ensures id !in s'.conss ==> ConsumerLeft(s.m, s'.m, s.conss[id])
  {
    hide Inv, Fresh, ConsumerMade, Gets, EntriesSeen;
    if x == id && !ByProducer(e) {
      OwnConsumerStep(s, s', id, e);
    }
  }

  lemma OwnConsumerStep(s: State, s': State, id: nat, e: Event)
    requires Inv(s) && !ByProducer(e) && Does(s, s', id, e) && NoAba(s, id, e) && id in s.conss
    ensures id in s'.conss ==> ConsumerMade(s.m, s'.m, s.conss[id], s'.conss[id])
    ensures id !in s'.conss ==> ConsumerLeft(s.m, s'.m, s.conss[id])
  {
    hide Inv, Fresh, Gets, EntriesSeen, SlotOf, Grant;
    match e
    case ECBegin(max, beh) =>
    case ECLoadHead =>
    case ECReadTail => DemandGets(s, id);
    case ECMoveHead => TakeMade(s, s', id);
    case ECCopyOne =>
    case ECPublish =>
  }

  // ---------------------------------------------------------------- a whole dequeue

  ghost predicate DequeueSoFar(r: seq<State>, i: nat, k: nat, id: nat, max: nat, beh: Behavior,
      a: nat, t: nat, c: nat) {
    && i < k < |r| && id in r[k].conss
    && match r[k].conss[id]
       case CStart(o, b) => o == max && b == beh && ConsHeadUnmoved(r, i, k, id)
       case CLoaded(o, b, from) =>
         o == max && b == beh && ConsHeadUnmoved(r, i, k, id) && i < a < k && r[a].m.ch == from
       case CReady(o, b, from, _, n, _) =>
         && o == max && b == beh && ConsHeadUnmoved(r, i, k, id) && i < a < t < k && r[a].m.ch == from
         && n >= 1 && Gets(max, beh, EntriesSeen(r[t].m, from), n)
       case CCopy(from, n, _) =>
         && i < a < t < c < k && r[a].m.ch == from
         && n >= 1 && Gets(max, beh, EntriesSeen(r[t].m, from), n)
         && ConsHeadMoved(r, i, k, id, c) && r[c].m.ch == from && r[c + 1].m.ch == from + n
  }

  ghost predicate ConsHeadUnmoved(r: seq<State>, i: nat, j: nat, id: nat) {
    forall k :: i <= k < j ==> !MovesConsHead(r, k, id)
  }

  ghost predicate ConsHeadMoved(r: seq<State>, i: nat, j: nat, id: nat, c: nat) {
    MovesConsHead(r, c, id) && forall k :: i <= k < j && MovesConsHead(r, k, id) ==> k == c
  }

  lemma StillConsUnmoved(r: seq<State>, i: nat, j: nat, id: nat)
    requires ConsHeadUnmoved(r, i, j, id) && i <= j && !MovesConsHead(r, j, id)
    ensures ConsHeadUnmoved(r, i, j + 1, id)
  {
    hide MovesConsHead;
  }

  lemma FirstConsMove(r: seq<State>, i: nat, j: nat, id: nat)
    requires ConsHeadUnmoved(r, i, j, id) && i <= j && MovesConsHead(r, j, id)
    ensures ConsHeadMoved(r, i, j + 1, id, j)
  {
    hide MovesConsHead;
  }

  lemma NoSecondConsMove(r: seq<State>, i: nat, j: nat, id: nat, c: nat)
    requires ConsHeadMoved(r, i, j, id, c) && i <= j && !MovesConsHead(r, j, id)
    ensures ConsHeadMoved(r, i, j + 1, id, c)
  {
    hide MovesConsHead;
  }

  lemma DequeueGoesOn(r: seq<State>, i: nat, k: nat, id: nat, max: nat, beh: Behavior, a: nat, t: nat, c: nat)
    returns (a': nat, t': nat, c': nat)
    requires Run(r) && k + 1 < |r| && DequeueSoFar(r, i, k, id, max, beh, a, t, c) && id in r[k + 1].conss
    ensures DequeueSoFar(r, i, k + 1, id, max, beh, a', t', c')
  {
    hide Run, Inv, Does, NoAba, Gets, EntriesSeen, ConsHeadUnmoved, ConsHeadMoved;
    var x, e := NextOf(r, k);
    ConsumerSteps(r[k], r[k + 1], x, e, id);
    var p, q := r[k].conss[id], r[k + 1].conss[id];
    a' := if p.CStart? && q.CLoaded? then k else a;
    t' := if p.CLoaded? && q.CReady? then k else t;
    c' := if p.CReady? && q.CCopy? then k else c;
    if p.CCopy? {
      NoSecondConsMove(r, i, k, id, c);
    } else if p.CReady? && q.CCopy? {
      FirstConsMove(r, i, k, id);
    } else {
      StillConsUnmoved(r, i, k, id);
    }
  }

  lemma {:induction false} DequeueBehind(r: seq<State>, i: nat, j: nat, k: nat, id: nat, max: nat, beh: Behavior)
    returns (a: nat, t: nat, c: nat)
    requires DequeueCall(r, i, j, id, max, beh) && i < k < j
    ensures DequeueSoFar(r, i, k, id, max, beh, a, t, c)
  {
    hide Run, DequeueSoFar;
    if k == i + 1 {
      DequeueBegun(r, i, id, max, beh);
      a, t, c := 0, 0, 0;
    } else {
      a, t, c := DequeueBehind(r, i, j, k - 1, id, max, beh);
      a, t, c := DequeueGoesOn(r, i, k - 1, id, max, beh, a, t, c);
    }
  }

  lemma DequeueBegun(r: seq<State>, i: nat, id: nat, max: nat, beh: Behavior)
    requires i + 1 < |r| && Does(r[i], r[i + 1], id, ECBegin(max, beh))
    ensures DequeueSoFar(r, i, i + 1, id, max, beh, 0, 0, 0)
  {
  }

  lemma TakeKnows(s: State, id: nat)
    requires Inv(s) && id in s.conss && s.conss[id].CCopy?
    ensures var p := s.conss[id];
      p.n >= 1 && p.from + p.n <= |s.m.enq| && p.got == s.m.enq[p.from..p.from + |p.got|]
  {
    assert ConsumerOk(s.m, s.conss[id]);
    hide Inv;
  }

  /**
   Every dequeue that ends has either moved the consumer head once, by what the entries it computed
   allow, and then what it has copied out is what was enqueued from where that head stood; or it
   was refused by a head and a tail that it read, and has taken nothing.
   */
  lemma DequeueEnds(r: seq<State>, i: nat, j: nat, id: nat, max: nat, beh: Behavior)
    requires DequeueCall(r, i, j, id, max, beh)
    ensures || (exists a, t, c, n :: Dequeued(r, i, j, id, max, beh, a, t, c, n))
            || (exists a :: DequeuedNone(r, i, j, id, max, beh, a))
  {
    hide Run, Inv, Does, NoAba, EntriesSeen;
    var h := j - 1;
    if h == i {
      DequeueBegun(r, i, id, max, beh);
      assert false;
    }
    var a, t, c := DequeueBehind(r, i, j, h, id, max, beh);
    var x, e := NextOf(r, h);
    ConsumerSteps(r[h], r[h + 1], x, e, id);
    var p := r[h].conss[id];
    if p.CCopy? {
      NoSecondConsMove(r, i, h, id, c);
      TakeKnows(r[h], id);
      assert Dequeued(r, i, j, id, max, beh, a, t, c, p.n);
    } else {
      StillConsUnmoved(r, i, h, id);
      assert DequeuedNone(r, i, j, id, max, beh, a);
    }
  }

  lemma DequeueLost(r: seq<State>, i: nat, j: nat, id: nat, max: nat, beh: Behavior, k: nat)
    requires DequeueCall(r, i, j, id, max, beh) && i < k && k + 1 < j
    requires r[k].conss[id].CReady? && r[k + 1].conss[id].CStart?
    ensures r[k + 1].conss[id] == CStart(max, beh)
    ensures exists l, x :: i < l < k && MovesConsHead(r, l, x) && x != id
  {
    hide Run, Inv, Does, NoAba, Gets, EntriesSeen;
    var a, t, c := DequeueBehind(r, i, j, k, id, max, beh);
    var x, e := NextOf(r, k);
    ConsumerSteps(r[k], r[k + 1], x, e, id);
    SomeoneMoved(r, a, k);
    var l, y :| a <= l < k && MovesConsHead(r, l, y);
    assert y != id;
  }

  // ---------------------------------------------------------------- a call that can go on

  /** A call that is not waiting for its turn can make its next step. */
  lemma EnqueueCanGoOn(s: State, id: nat) returns (s': State, e: Event)
    requires Inv(s) && id in s.prods && !s.prods[id].PCopy?
    requires s.prods[id].PReady? ==> Fresh(s.m.ph, s.prods[id].from)
    ensures Does(s, s', id, e) && NoAba(s, id, e) && (id in s'.prods ==> s'.prods[id] != s.prods[id])
  {
    var p := s.prods[id];
    assert ProducerOk(s.m, p);
    hide Inv, Fresh, FreeWord;
    match p {
      case PStart(objs, beh) =>
        e, s' := EPLoadHead, s.(prods := s.prods[id := PLoaded(objs, beh, s.m.ph)]);
      case PLoaded(objs, beh, from) =>
        var q := Offer(s.m, p);
        e, s' := EPReadTail, s.(prods := if q.n == 0 then s.prods - {id} else s.prods[id := q]);
      case PReady(objs, beh, from, _, n, _) =>
        e := EPMoveHead;
        if s.m.sp || Word(s.m.ph) == Word(from) {
          s' := s.(m := s.m.(ph := from + n, enq := s.m.enq + objs[..n]),
                   prods := s.prods[id := PCopy(objs, from, n, 0)], pq := s.pq + [Resv(id, from, n)]);
        } else {
          s' := s.(prods := s.prods[id := PStart(objs, beh)]);
        }
    }
  }

  lemma DequeueCanGoOn(s: State, id: nat) returns (s': State, e: Event)
    requires Inv(s) && id in s.conss && !s.conss[id].CCopy?
    requires s.conss[id].CReady? ==> Fresh(s.m.ch, s.conss[id].from)
    ensures Does(s, s', id, e) && NoAba(s, id, e) && (id in s'.conss ==> s'.conss[id] != s.conss[id])
  {
    hide Inv, Fresh, EntriesWord, Grant;
    var p := s.conss[id];
    match p {
      case CStart(max, beh) =>
        e, s' := ECLoadHead, s.(conss := s.conss[id := CLoaded(max, beh, s.m.ch)]);
      case CLoaded(max, beh, from) =>
        var q := Demand(s.m, p);
        e, s' := ECReadTail, s.(conss := if q.n == 0 then s.conss - {id} else s.conss[id := q]);
      case CReady(max, beh, from, _, n, _) =>
        e := ECMoveHead;
        if s.m.sc || Word(s.m.ch) == Word(from) {
          s' := s.(m := s.m.(ch := from + n),
                   conss := s.conss[id := CCopy(from, n, [])], cq := s.cq + [Resv(id, from, n)]);
        } else {
          s' := s.(conss := s.conss[id := CStart(max, beh)]);
        }
    }
  }
}
