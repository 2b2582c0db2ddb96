/**
 The multi-producer multi-consumer ring as a step system.

 Shared memory holds the four indices and the slots; every atomic access of a producer or a
 consumer is one step, in the order in which the program makes them. Indices are kept as
 unbounded numbers, and every comparison and every subtraction the program does is done on
 their 32-bit words. `enq` and `deq` are history: the objects in the order in which their
 producers moved the head, and the object copied out for each position.
 */
module RingProtocol {
  import opened Powers

  /** The ring holds pointers; they are never looked through. */
  type Obj = int

  datatype Behavior = Fixed | Variable

  datatype Producer =
    | PStart(objs: seq<Obj>, beh: Behavior)
    | PLoaded(objs: seq<Obj>, beh: Behavior, from: nat)
    | PReady(objs: seq<Obj>, beh: Behavior, from: nat, seen: nat, n: nat, free: Word32)
    | PCopy(objs: seq<Obj>, from: nat, n: nat, i: nat)

  datatype Consumer =
    | CStart(max: nat, beh: Behavior)
    | CLoaded(max: nat, beh: Behavior, from: nat)
    | CReady(max: nat, beh: Behavior, from: nat, seen: nat, n: nat, entries: Word32)
    | CCopy(from: nat, n: nat, got: seq<Obj>)

  /** Shared memory, with its history. */
  datatype Mem = Mem(
    k: nat, size: nat, sp: bool, sc: bool,
    ph: nat, pt: nat, ch: nat, ct: nat,
    slots: seq<Obj>, enq: seq<Obj>, deq: map<nat, Obj>)

  /** A stretch of positions that a thread has reserved by moving a head. */
  datatype Resv = Resv(id: nat, from: nat, n: nat)

  /** `pq` and `cq` list the reservations in flight, oldest first. */
  datatype State = State(m: Mem, prods: map<nat, Producer>, conss: map<nat, Consumer>, pq: seq<Resv>, cq: seq<Resv>)

  ghost function Word(x: nat): Word32 { x % WORD }

  /** How many of `want` entries a call is granted when `room` are there. */
  ghost function Grant(want: nat, room: nat, beh: Behavior): nat {
    if want > room then (if beh == Fixed then 0 else room) else want
  }

  /** capacity + cons.tail - old_head, on words. */
  ghost function FreeWord(size: nat, tail: nat, from: nat): Word32 {
    Sub32(Add32(size - 1, Word(tail)), Word(from))
  }

  ghost function EntriesWord(tail: nat, from: nat): Word32 {
    Sub32(Word(tail), Word(from))
  }

  /** The slot of the i-th entry of a reservation that starts at `from`. */
  ghost function SlotOf(size: nat, from: nat, i: nat): nat
    requires size > 0
  {
    (BitAnd(Word(from), size - 1) + i) % size
  }

  // ---------------------------------------------------------------- initial state and steps

  ghost predicate Init(s: State) {
    && s.m.k <= 30 && s.m.size == Pow2(s.m.k) && |s.m.slots| == s.m.size
    && s.m.ph == s.m.pt == s.m.ch == s.m.ct == 0 && s.m.enq == [] && s.m.deq == map[]
    && s.prods == map[] && s.conss == map[] && s.pq == [] && s.cq == []
  }

  ghost predicate PBegin(s: State, s': State, id: nat, objs: seq<Obj>, beh: Behavior) {
    && id !in s.prods && |objs| < WORD
    && (s.m.sp ==> s.prods == map[])
    && s' == s.(prods := s.prods[id := PStart(objs, beh)])
  }

  ghost predicate PLoadHead(s: State, s': State, id: nat) {
    && id in s.prods && s.prods[id].PStart?
    && var p := s.prods[id];
       s' == s.(prods := s.prods[id := PLoaded(p.objs, p.beh, s.m.ph)])
  }

  /** What the program computes once it has read the consumer tail. */
  ghost function Offer(m: Mem, p: Producer): Producer
    requires p.PLoaded?
  {
    var free := FreeWord(m.size, m.ct, p.from);
    PReady(p.objs, p.beh, p.from, m.ct, Grant(|p.objs|, free, p.beh), free)
  }

  ghost predicate PReadTail(s: State, s': State, id: nat) {
    && id in s.prods && s.prods[id].PLoaded?
    && var p := Offer(s.m, s.prods[id]);
       s' == s.(prods := if p.n == 0 then s.prods - {id} else s.prods[id := p])
  }

  /** The compare-and-set on the producer head, or the plain store of a single producer. */
  ghost predicate PMoveHead(s: State, s': State, id: nat) {
    && id in s.prods && s.prods[id].PReady? && s.prods[id].n <= |s.prods[id].objs|
    && var p := s.prods[id];
       if s.m.sp || Word(s.m.ph) == Word(p.from) then
         s' == s.(m := s.m.(ph := p.from + p.n, enq := s.m.enq + p.objs[..p.n]),
                  prods := s.prods[id := PCopy(p.objs, p.from, p.n, 0)],
                  pq := s.pq + [Resv(id, p.from, p.n)])
       else s' == s.(prods := s.prods[id := PStart(p.objs, p.beh)])
  }

  ghost predicate PCopyOne(s: State, s': State, id: nat) {
    && id in s.prods && s.prods[id].PCopy? && s.m.size > 0
    && var p := s.prods[id];
       && p.i < p.n && p.i < |p.objs| && SlotOf(s.m.size, p.from, p.i) < |s.m.slots|
       && s' == s.(m := s.m.(slots := s.m.slots[SlotOf(s.m.size, p.from, p.i) := p.objs[p.i]]),
                   prods := s.prods[id := p.(i := p.i + 1)])
  }

  /** The store to the producer tail; with several producers, each waits for its turn. */
  ghost predicate PPublish(s: State, s': State, id: nat) {
    && id in s.prods && s.prods[id].PCopy?
    && var p := s.prods[id];
       && p.i == p.n && (s.m.sp || Word(s.m.pt) == Word(p.from))
       && s' == s.(m := s.m.(pt := p.from + p.n), prods := s.prods - {id},
                   pq := if s.pq == [] then [] else s.pq[1..])
  }

  ghost predicate CBegin(s: State, s': State, id: nat, max: nat, beh: Behavior) {
    && id !in s.conss && max < WORD
    && (s.m.sc ==> s.conss == map[])
    && s' == s.(conss := s.conss[id := CStart(max, beh)])
  }

  ghost predicate CLoadHead(s: State, s': State, id: nat) {
    && id in s.conss && s.conss[id].CStart?
    && var c := s.conss[id];
       s' == s.(conss := s.conss[id := CLoaded(c.max, c.beh, s.m.ch)])
  }

  ghost function Demand(m: Mem, c: Consumer): Consumer
    requires c.CLoaded?
  {
    var entries := EntriesWord(m.pt, c.from);
    CReady(c.max, c.beh, c.from, m.pt, Grant(c.max, entries, c.beh), entries)
  }

  ghost predicate CReadTail(s: State, s': State, id: nat) {
    && id in s.conss && s.conss[id].CLoaded?
    && var c := Demand(s.m, s.conss[id]);
       s' == s.(conss := if c.n == 0 then s.conss - {id} else s.conss[id := c])
  }

  ghost predicate CMoveHead(s: State, s': State, id: nat) {
    && id in s.conss && s.conss[id].CReady?
    && var c := s.conss[id];
       if s.m.sc || Word(s.m.ch) == Word(c.from) then
         s' == s.(m := s.m.(ch := c.from + c.n),
                  conss := s.conss[id := CCopy(c.from, c.n, [])],
                  cq := s.cq + [Resv(id, c.from, c.n)])
       else s' == s.(conss := s.conss[id := CStart(c.max, c.beh)])
  }

  ghost predicate CCopyOne(s: State, s': State, id: nat) {
    && id in s.conss && s.conss[id].CCopy? && s.m.size > 0
    && var c := s.conss[id];
       && |c.got| < c.n && SlotOf(s.m.size, c.from, |c.got|) < |s.m.slots|
       && var v := s.m.slots[SlotOf(s.m.size, c.from, |c.got|)];
          s' == s.(m := s.m.(deq := s.m.deq[c.from + |c.got| := v]),
                   conss := s.conss[id := c.(got := c.got + [v])])
  }

  ghost predicate CPublish(s: State, s': State, id: nat) {
    && id in s.conss && s.conss[id].CCopy?
    && var c := s.conss[id];
       && |c.got| == c.n && (s.m.sc || Word(s.m.ct) == Word(c.from))
       && s' == s.(m := s.m.(ct := c.from + c.n), conss := s.conss - {id},
                   cq := if s.cq == [] then [] else s.cq[1..])
  }

  datatype Event =
    | EPBegin(objs: seq<Obj>, beh: Behavior) | EPLoadHead | EPReadTail | EPMoveHead | EPCopyOne | EPPublish
    | ECBegin(max: nat, beh: Behavior) | ECLoadHead | ECReadTail | ECMoveHead | ECCopyOne | ECPublish

  /** Thread `id` makes the step `e`. */
  ghost predicate Does(s: State, s': State, id: nat, e: Event) {
    match e
    case EPBegin(objs, beh) => PBegin(s, s', id, objs, beh)
    case EPLoadHead => PLoadHead(s, s', id)
    case EPReadTail => PReadTail(s, s', id)
    case EPMoveHead => PMoveHead(s, s', id)
    case EPCopyOne => PCopyOne(s, s', id)
    case EPPublish => PPublish(s, s', id)
    case ECBegin(max, beh) => CBegin(s, s', id, max, beh)
    case ECLoadHead => CLoadHead(s, s', id)
    case ECReadTail => CReadTail(s, s', id)
    case ECMoveHead => CMoveHead(s, s', id)
    case ECCopyOne => CCopyOne(s, s', id)
    case ECPublish => CPublish(s, s', id)
  }

  /** A head that has moved since the thread loaded it has another word now. */
  ghost predicate Fresh(head: nat, from: nat) { Word(head) == Word(from) ==> head == from }

  /**
   A thread that makes its compare-and-set does not find the word it loaded in a head that has
   moved a multiple of 2^32. Nothing in the program prevents that; it is assumed of a run.
   */
  ghost predicate NoAba(s: State, id: nat, e: Event) {
    && (e.EPMoveHead? && id in s.prods && s.prods[id].PReady? ==> Fresh(s.m.ph, s.prods[id].from))
    && (e.ECMoveHead? && id in s.conss && s.conss[id].CReady? ==> Fresh(s.m.ch, s.conss[id].from))
  }

  ghost predicate Next(s: State, s': State) {
    exists id, e :: Does(s, s', id, e) && NoAba(s, id, e)
  }

  ghost predicate Run(r: seq<State>) {
    && |r| > 0 && Init(r[0])
    && forall i :: 0 <= i < |r| - 1 ==> Next(r[i], r[i + 1])
  }

  // ---------------------------------------------------------------- the invariant

  ghost predicate Shape(m: Mem) {
    && m.k <= 30 && m.size == Pow2(m.k) && 1 <= m.size <= 0x4000_0000 && |m.slots| == m.size
    && |m.enq| == m.ph
  }

  /** The four indices never pass each other, and the ring never holds more than its capacity. */
  ghost predicate Bounds(m: Mem) {
    m.ct <= m.ch <= m.pt <= m.ph <= m.ct + (m.size - 1)
  }

  /** The reservations follow each other from `lo` to `hi` without a gap or an overlap. */
  ghost predicate Tiles(q: seq<Resv>, lo: nat, hi: nat) {
    && (if q == [] then lo == hi else q[0].from == lo && q[|q| - 1].from + q[|q| - 1].n == hi)
    && (forall a :: 0 <= a < |q| ==> q[a].n >= 1)
    && (forall a :: 0 <= a < |q| - 1 ==> q[a].from + q[a].n == q[a + 1].from)
    && (forall a, b :: 0 <= a < b < |q| ==> q[a].from + q[a].n <= q[b].from)
  }

  ghost predicate PListed(prods: map<nat, Producer>, q: seq<Resv>) {
    && (forall r :: r in q ==>
          r.id in prods && prods[r.id].PCopy? && prods[r.id].from == r.from && prods[r.id].n == r.n)
    && (forall id :: id in prods && prods[id].PCopy? ==> Resv(id, prods[id].from, prods[id].n) in q)
  }

  ghost predicate CListed(conss: map<nat, Consumer>, q: seq<Resv>) {
    && (forall r :: r in q ==>
          r.id in conss && conss[r.id].CCopy? && conss[r.id].from == r.from && conss[r.id].n == r.n)
    && (forall id :: id in conss && conss[id].CCopy? ==> Resv(id, conss[id].from, conss[id].n) in q)
  }

  /** Slot j mod size holds the j-th object ever enqueued. */
  ghost predicate Holds(m: Mem, j: nat) {
    m.size > 0 && j < |m.enq| && j % m.size < |m.slots| && m.slots[j % m.size] == m.enq[j]
  }

  /** What one producer knows, and what it has written. */
  ghost predicate ProducerOk(m: Mem, p: Producer) {
    match p
    case PStart(objs, _) => |objs| < WORD
    case PLoaded(objs, _, from) =>
      |objs| < WORD && from <= m.ph && from <= m.ct + (m.size - 1) && (m.sp ==> from == m.ph)
    case PReady(objs, beh, from, seen, n, free) =>
      && |objs| < WORD && from <= m.ph && seen <= m.ct && from <= seen + (m.size - 1) && (m.sp ==> from == m.ph)
      && free == FreeWord(m.size, seen, from) && n >= 1 && n == Grant(|objs|, free, beh)
    case PCopy(objs, from, n, i) =>
      && 1 <= n <= |objs| && i <= n && m.pt <= from && from + n <= m.ph <= |m.enq|
      && m.enq[from..from + n] == objs[..n]
      && (forall j :: from <= j < from + i ==> Holds(m, j))
  }

  ghost predicate ConsumerOk(m: Mem, c: Consumer) {
    match c
    case CStart(_, _) => true
    case CLoaded(_, _, from) => from <= m.ch && (m.sc ==> from == m.ch)
    case CReady(max, beh, from, seen, n, entries) =>
      && from <= m.ch && from <= seen <= m.pt && (m.sc ==> from == m.ch)
      && entries == EntriesWord(seen, from) && n >= 1 && n == Grant(max, entries, beh)
    case CCopy(from, n, got) =>
      && 1 <= n && |got| <= n && m.ct <= from && from + n <= m.ch <= |m.enq|
      && got == m.enq[from..from + |got|]
      && (forall j :: from <= j < from + n ==> (j in m.deq <==> j < from + |got|))
  }

  /** Published entries are in their slots, and what was copied out is what was put in. */
  ghost predicate Contents(m: Mem) {
    && (forall j :: m.ct <= j < m.pt ==> Holds(m, j))
    && (forall j :: j in m.deq ==> j < m.ch && j < |m.enq| && m.deq[j] == m.enq[j])
    && (forall j :: 0 <= j < m.ct ==> j in m.deq)
  }

  /** A single-producer ring has one producer at a time, and likewise for consumers. */
  ghost predicate Alone(s: State) {
    && (s.m.sp ==> forall a, b :: a in s.prods && b in s.prods ==> a == b)
    && (s.m.sc ==> forall a, b :: a in s.conss && b in s.conss ==> a == b)
  }

  ghost predicate ProducersOk(m: Mem, prods: map<nat, Producer>) {
    forall id :: id in prods ==> ProducerOk(m, prods[id])
  }

  ghost predicate ConsumersOk(m: Mem, conss: map<nat, Consumer>) {
    forall id :: id in conss ==> ConsumerOk(m, conss[id])
  }

  ghost predicate Inv(s: State) {
    && Shape(s.m) && Bounds(s.m) && Contents(s.m)
    && Tiles(s.pq, s.m.pt, s.m.ph) && PListed(s.prods, s.pq)
    && Tiles(s.cq, s.m.ct, s.m.ch) && CListed(s.conss, s.cq)
    && ProducersOk(s.m, s.prods) && ConsumersOk(s.m, s.conss) && Alone(s)
  }

  lemma InitInv(s: State)
    requires Init(s)
    ensures Inv(s)
  {
    Pow2Mono(s.m.k, 30);
    Pow2Of30();
    hide Pow2;
  }

  // ---------------------------------------------------------------- words and slots

  lemma SlotIs(k: nat, size: nat, from: nat, i: nat)
    requires k <= 30 && size == Pow2(k)
    ensures size > 0 && SlotOf(size, from, i) == (from + i) % size
  {
    Pow2Mono(0, k);
    MaskIsMod(Word(from), k);
    WordMod(from, k);
    ModShift(from, i, size);
  }

  lemma ModShift(a: nat, i: nat, m: nat)
    requires m > 0
    ensures (a % m + i) % m == (a + i) % m
  {
    var q, r := a / m, a % m;
    assert a + i == m * q + (r + i);
    ModAdd(q, m, r + i);
  }

  /** The free count is exact as long as the head is not 2^32 - capacity or more positions stale. */
  lemma FreeIs(size: nat, tail: nat, from: nat)
    requires 1 <= size <= 0x4000_0000
    ensures FreeWord(size, tail, from) == ((size - 1) + tail - from) % WORD
    ensures FreeWord(size, tail, from) == (size - 1) + tail - from <==> 0 <= (size - 1) + tail - from < WORD
  {
    var a, b := tail / WORD, from / WORD;
    assert tail == WORD * a + Word(tail) && from == WORD * b + Word(from);
    var c := ((size - 1) + Word(tail)) / WORD;
    ModAdd(a - b + c, WORD, Add32(size - 1, Word(tail)) - Word(from));
  }

  lemma EntriesIs(tail: nat, from: nat)
    ensures EntriesWord(tail, from) == (tail - from) % WORD
    ensures EntriesWord(tail, from) == tail - from <==> 0 <= tail - from < WORD
  {
    var a, b := tail / WORD, from / WORD;
    assert tail == WORD * a + Word(tail) && from == WORD * b + Word(from);
    ModAdd(a - b, WORD, Word(tail) - Word(from));
  }

  lemma WordsApart(a: nat, b: nat)
    requires 0 <= a - b < WORD
    ensures Word(a) == Word(b) <==> a == b
  {
    if Word(a) == Word(b) {
      ModApart(a, b, WORD);
    }
  }

  /** Different positions less than `size` apart have different slots. */
  lemma SlotsApart(a: nat, b: nat, size: nat)
    requires size > 0 && a != b && a - b < size && b - a < size
    ensures a % size != b % size
  {
    if a % size == b % size {
      if a > b {
        ModApart(a, b, size);
      } else {
        ModApart(b, a, size);
      }
    }
  }

  // ---------------------------------------------------------------- reservations

  lemma TilesAppend(q: seq<Resv>, lo: nat, hi: nat, r: Resv)
    requires Tiles(q, lo, hi) && r.from == hi && r.n >= 1
    ensures Tiles(q + [r], lo, hi + r.n)
  {
    var q' := q + [r];
    forall a, b | 0 <= a < b < |q'|
      ensures q'[a].from + q'[a].n <= q'[b].from
    {
      if b == |q| && a < |q| - 1 {
        assert q[a].from + q[a].n <= q[|q| - 1].from;
      }
    }
  }

  lemma TilesPop(q: seq<Resv>, lo: nat, hi: nat)
    requires Tiles(q, lo, hi) && q != []
    ensures Tiles(q[1..], lo + q[0].n, hi)
  {
  }

  lemma TilesRange(q: seq<Resv>, lo: nat, hi: nat, r: Resv)
    requires Tiles(q, lo, hi) && r in q
    ensures lo <= r.from && r.from + r.n <= hi && r.n >= 1
    ensures r.from == lo ==> r == q[0]
  {
    var a :| 0 <= a < |q| && q[a] == r;
    if a > 0 {
      assert q[0].from + q[0].n <= q[a].from;
    }
    if a < |q| - 1 {
      assert q[a].from + q[a].n <= q[|q| - 1].from;
    }
  }

  /** Two reservations that touch the same position are the same one. */
  lemma TilesApart(q: seq<Resv>, lo: nat, hi: nat, r: Resv, t: Resv, p: nat)
    requires Tiles(q, lo, hi) && r in q && t in q
    requires r.from <= p < r.from + r.n && t.from <= p < t.from + t.n
    ensures r == t
  {
    var a :| 0 <= a < |q| && q[a] == r;
    var b :| 0 <= b < |q| && q[b] == t;
  }

  /** Every position between the tail and the head is reserved by some thread in flight. */
  lemma {:induction false} TilesCover(q: seq<Resv>, lo: nat, hi: nat, p: nat) returns (r: Resv)
    requires Tiles(q, lo, hi) && lo <= p < hi
    ensures r in q && r.from <= p < r.from + r.n
  {
    if p < q[0].from + q[0].n {
      r := q[0];
    } else {
      TilesPop(q, lo, hi);
      r := TilesCover(q[1..], lo + q[0].n, hi, p);
    }
  }

  // ---------------------------------------------------------------- one thread changes, memory does not

  lemma SetProducer(s: State, id: nat, p: Producer)
    requires Inv(s) && ProducerOk(s.m, p) && !p.PCopy?
    requires id in s.prods ==> !s.prods[id].PCopy?
    requires id in s.prods || (s.m.sp ==> s.prods == map[])
    ensures Inv(s.(prods := s.prods[id := p]))
  {
    hide Shape, Bounds, Contents, Tiles, ProducerOk, ConsumerOk, CListed;
  }

  lemma DropProducer(s: State, id: nat)
    requires Inv(s) && id in s.prods && !s.prods[id].PCopy?
    ensures Inv(s.(prods := s.prods - {id}))
  {
    hide Shape, Bounds, Contents, Tiles, ProducerOk, ConsumerOk, CListed;
  }

  lemma SetConsumer(s: State, id: nat, c: Consumer)
    requires Inv(s) && ConsumerOk(s.m, c) && !c.CCopy?
    requires id in s.conss ==> !s.conss[id].CCopy?
    requires id in s.conss || (s.m.sc ==> s.conss == map[])
    ensures Inv(s.(conss := s.conss[id := c]))
  {
    hide Shape, Bounds, Contents, Tiles, ProducerOk, ConsumerOk, PListed;
  }

  lemma DropConsumer(s: State, id: nat)
    requires Inv(s) && id in s.conss && !s.conss[id].CCopy?
    ensures Inv(s.(conss := s.conss - {id}))
  {
    hide Shape, Bounds, Contents, Tiles, ProducerOk, ConsumerOk, PListed;
  }

  lemma PReadTailKeeps(s: State, s': State, id: nat)
    requires Inv(s) && PReadTail(s, s', id)
    ensures Inv(s')
  {
    if Offer(s.m, s.prods[id]).n == 0 {
      DropProducer(s, id);
    } else {
      assert ProducerOk(s.m, s.prods[id]);
      assert ProducerOk(s.m, Offer(s.m, s.prods[id]));
      SetProducer(s, id, Offer(s.m, s.prods[id]));
    }
  }

  lemma CReadTailKeeps(s: State, s': State, id: nat)
    requires Inv(s) && CReadTail(s, s', id)
    ensures Inv(s')
  {
    if Demand(s.m, s.conss[id]).n == 0 {
      DropConsumer(s, id);
    } else {
      assert ConsumerOk(s.m, s.conss[id]);
      assert ConsumerOk(s.m, Demand(s.m, s.conss[id]));
      SetConsumer(s, id, Demand(s.m, s.conss[id]));
    }
  }

  // ---------------------------------------------------------------- a producer moves the head

  /** A producer that wins the race knows the free count exactly, and stays within the capacity. */
  lemma HeadWon(m: Mem, p: Producer)
    requires Shape(m) && Bounds(m) && p.PReady? && ProducerOk(m, p)
    requires Fresh(m.ph, p.from) && (m.sp || Word(m.ph) == Word(p.from))
    ensures p.from == m.ph
    ensures p.free == (m.size - 1) + p.seen - m.ph
    ensures p.free <= m.size - 1
    ensures m.ph + p.n <= m.ct + (m.size - 1) && p.n >= 1
  {
    FreeIs(m.size, p.seen, p.from);
  }

  ghost function Grown(m: Mem, add: seq<Obj>): Mem {
    m.(ph := m.ph + |add|, enq := m.enq + add)
  }

  lemma GrownKeeps(m: Mem, add: seq<Obj>)
    requires Shape(m) && Bounds(m) && Contents(m) && m.ph + |add| <= m.ct + (m.size - 1)
    ensures Shape(Grown(m, add)) && Bounds(Grown(m, add)) && Contents(Grown(m, add))
  {
    hide Pow2;
    forall j | m.ct <= j < m.pt
      ensures Holds(Grown(m, add), j)
    {
      assert Holds(m, j);
    }
  }

  lemma GrownProducer(m: Mem, add: seq<Obj>, p: Producer)
    requires Shape(m) && ProducerOk(m, p) && (m.sp ==> p.PStart? || p.PCopy?)
    ensures ProducerOk(Grown(m, add), p)
  {
    if p.PCopy? {
      assert (m.enq + add)[p.from..p.from + p.n] == m.enq[p.from..p.from + p.n];
      forall j | p.from <= j < p.from + p.i
        ensures Holds(Grown(m, add), j)
      {
        assert Holds(m, j);
      }
    }
  }

  lemma GrownConsumer(m: Mem, add: seq<Obj>, c: Consumer)
    requires Shape(m) && ConsumerOk(m, c)
    ensures ConsumerOk(Grown(m, add), c)
  {
    if c.CCopy? {
      assert (m.enq + add)[c.from..c.from + |c.got|] == m.enq[c.from..c.from + |c.got|];
    }
  }

  lemma PMoveHeadKeeps(s: State, s': State, id: nat)
    requires Inv(s) && PMoveHead(s, s', id) && Fresh(s.m.ph, s.prods[id].from)
    ensures Inv(s')
  {
    hide Shape, Bounds, Contents, Tiles, ProducerOk, ConsumerOk, Holds, PListed, CListed;
    var p := s.prods[id];
    if s.m.sp || Word(s.m.ph) == Word(p.from) {
      var add := p.objs[..p.n];
      HeadWon(s.m, p);
      GrownKeeps(s.m, add);
      TilesAppend(s.pq, s.m.pt, s.m.ph, Resv(id, p.from, p.n));
      Listed1(s.prods, s.pq, id, p.objs, p.from, p.n);
      MoversOk(s, s', id);
    } else {
      StartOk(s.m, p);
      SetProducer(s, id, PStart(p.objs, p.beh));
    }
  }

  lemma StartOk(m: Mem, p: Producer)
    requires ProducerOk(m, p) && p.PReady?
    ensures ProducerOk(m, PStart(p.objs, p.beh))
  {
  }

  lemma MoversOk(s: State, s': State, id: nat)
    requires Inv(s) && PMoveHead(s, s', id)
    requires s.prods[id].from == s.m.ph && s'.m == Grown(s.m, s.prods[id].objs[..s.prods[id].n])
    requires s'.prods == s.prods[id := PCopy(s.prods[id].objs, s.m.ph, s.prods[id].n, 0)] && s'.conss == s.conss
    ensures ProducersOk(s'.m, s'.prods) && ConsumersOk(s'.m, s'.conss)
  {
    var p := s.prods[id];
    var add := p.objs[..p.n];
    CopyOk(s.m, p);
    hide Shape, Bounds, Contents, Tiles, ProducerOk, ConsumerOk, Holds, PListed, CListed, Grown;
    forall x | x in s'.prods
      ensures ProducerOk(s'.m, s'.prods[x])
    {
      if x != id {
        GrownProducer(s.m, add, s.prods[x]);
      }
    }
    forall x | x in s'.conss
      ensures ConsumerOk(s'.m, s'.conss[x])
    {
      GrownConsumer(s.m, add, s.conss[x]);
    }
  }

  lemma CopyOk(m: Mem, p: Producer)
    requires Shape(m) && Bounds(m) && p.PReady? && ProducerOk(m, p) && p.from == m.ph
    ensures ProducerOk(Grown(m, p.objs[..p.n]), PCopy(p.objs, m.ph, p.n, 0))
  {
    assert (m.enq + p.objs[..p.n])[m.ph..m.ph + p.n] == p.objs[..p.n];
  }

  lemma Listed1(prods: map<nat, Producer>, q: seq<Resv>, id: nat, objs: seq<Obj>, from: nat, n: nat)
    requires PListed(prods, q) && (id in prods ==> !prods[id].PCopy?)
    ensures PListed(prods[id := PCopy(objs, from, n, 0)], q + [Resv(id, from, n)])
  {
    var q' := q + [Resv(id, from, n)];
    assert q'[|q|] == Resv(id, from, n);
    assert forall r :: r in q ==> r in q';
  }

  // ---------------------------------------------------------------- a producer copies one object

  /** The slot written for a position in flight is none of those that hold live entries. */
  lemma WriteKeeps(m: Mem, x: nat, m': Mem)
    requires Shape(m) && Bounds(m) && m.pt <= x < m.ph
    requires m' == m.(slots := m.slots[x % m.size := m.enq[x]])
    ensures Holds(m', x)
    ensures forall j :: m.ct <= j < m.ph && Holds(m, j) ==> Holds(m', j)
  {
    hide Pow2;
    forall j | m.ct <= j < m.ph && Holds(m, j)
      ensures Holds(m', j)
    {
      if j != x {
        SlotsApart(j, x, m.size);
      }
    }
  }

  lemma WriteContents(m: Mem, x: nat, m': Mem)
    requires Shape(m) && Bounds(m) && Contents(m) && m.pt <= x < m.ph
    requires m' == m.(slots := m.slots[x % m.size := m.enq[x]])
    ensures Shape(m') && Bounds(m') && Contents(m')
  {
    WriteKeeps(m, x, m');
    hide Holds, Pow2;
  }

  lemma WriteProducer(m: Mem, x: nat, m': Mem, p: Producer)
    requires Shape(m) && Bounds(m) && m.pt <= x < m.ph && ProducerOk(m, p)
    requires m' == m.(slots := m.slots[x % m.size := m.enq[x]])
    ensures ProducerOk(m', p)
    ensures p.PCopy? && x == p.from + p.i < p.from + p.n ==> ProducerOk(m', p.(i := p.i + 1))
  {
    WriteKeeps(m, x, m');
    hide Holds, Pow2, FreeWord;
  }

  lemma WriteConsumer(m: Mem, x: nat, m': Mem, c: Consumer)
    requires ConsumerOk(m, c) && 0 < m.size && x < |m.enq| && x % m.size < |m.slots|
    requires m' == m.(slots := m.slots[x % m.size := m.enq[x]])
    ensures ConsumerOk(m', c)
  {
  }

  lemma WrittenObject(m: Mem, p: Producer)
    requires Shape(m) && p.PCopy? && ProducerOk(m, p) && p.i < p.n
    ensures 0 < m.size && m.pt <= p.from + p.i < m.ph == |m.enq| && m.enq[p.from + p.i] == p.objs[p.i]
    ensures SlotOf(m.size, p.from, p.i) == (p.from + p.i) % m.size < |m.slots|
  {
    SlotIs(m.k, m.size, p.from, p.i);
    assert m.enq[p.from..p.from + p.n][p.i] == p.objs[..p.n][p.i];
  }

  /** What the step does, in terms of positions. */
  lemma PCopyOneIs(s: State, s': State, id: nat)
    requires Inv(s) && PCopyOne(s, s', id)
    ensures var p := s.prods[id];
      && s.m.pt <= p.from + p.i < s.m.ph == |s.m.enq| && 0 < s.m.size && (p.from + p.i) % s.m.size < |s.m.slots|
      && s'.m == s.m.(slots := s.m.slots[(p.from + p.i) % s.m.size := s.m.enq[p.from + p.i]])
      && s'.prods == s.prods[id := p.(i := p.i + 1)] && s'.conss == s.conss && s'.pq == s.pq && s'.cq == s.cq
    ensures Alone(s')
  {
    hide Shape, Bounds, Contents, Tiles, ProducerOk, ConsumerOk, SlotOf, PListed, CListed;
    WrittenObject(s.m, s.prods[id]);
  }

  lemma PCopyOneKeeps(s: State, s': State, id: nat)
    requires Inv(s) && PCopyOne(s, s', id)
    ensures Inv(s')
  {
    hide Shape, Bounds, Contents, Tiles, ProducerOk, ConsumerOk, Alone;
    hide SlotOf, PListed, CListed, ProducersOk, ConsumersOk;
    var p := s.prods[id];
    PCopyOneIs(s, s', id);
    hide BitAnd, PCopyOne;
    WriteContents(s.m, p.from + p.i, s'.m);
    WritersOk(s, s', id);
    Listed2(s.prods, s.pq, id);
  }

  lemma Listed2(prods: map<nat, Producer>, q: seq<Resv>, id: nat)
    requires PListed(prods, q) && id in prods && prods[id].PCopy?
    ensures PListed(prods[id := prods[id].(i := prods[id].i + 1)], q)
  {
  }

  lemma WritersOk(s: State, s': State, id: nat)
    requires Inv(s) && id in s.prods && s.prods[id].PCopy? && s.prods[id].i < s.prods[id].n
    requires var p := s.prods[id];
      && s.m.pt <= p.from + p.i < s.m.ph == |s.m.enq| && 0 < s.m.size && (p.from + p.i) % s.m.size < |s.m.slots|
      && s'.m == s.m.(slots := s.m.slots[(p.from + p.i) % s.m.size := s.m.enq[p.from + p.i]])
      && s'.prods == s.prods[id := p.(i := p.i + 1)] && s'.conss == s.conss
    ensures ProducersOk(s'.m, s'.prods) && ConsumersOk(s'.m, s'.conss)
  {
    hide Shape, Bounds, Contents, Tiles, ProducerOk, ConsumerOk, Holds, PListed, CListed;
    var x := s.prods[id].from + s.prods[id].i;
    forall y | y in s'.prods
      ensures ProducerOk(s'.m, s'.prods[y])
    {
      WriteProducer(s.m, x, s'.m, s.prods[y]);
    }
    forall y | y in s'.conss
      ensures ConsumerOk(s'.m, s'.conss[y])
    {
      WriteConsumer(s.m, x, s'.m, s.conss[y]);
    }
  }

  // ---------------------------------------------------------------- a producer publishes

  /** The producer whose turn it is holds the oldest reservation. */
  lemma OldestProducer(s: State, id: nat)
    requires Inv(s) && id in s.prods && s.prods[id].PCopy?
    requires s.m.sp || Word(s.m.pt) == Word(s.prods[id].from)
    ensures s.pq != [] && s.pq[0] == Resv(id, s.prods[id].from, s.prods[id].n) && s.prods[id].from == s.m.pt
  {
    var p := s.prods[id];
    var r := Resv(id, p.from, p.n);
    assert ProducerOk(s.m, p);
    TilesRange(s.pq, s.m.pt, s.m.ph, r);
    assert s.pq[0] in s.pq;
    hide Pow2, Tiles, Contents, ProducerOk, ConsumerOk;
    if !s.m.sp {
      WordsApart(p.from, s.m.pt);
    }
  }

  lemma PublishContents(m: Mem, p: Producer)
    requires Shape(m) && Bounds(m) && Contents(m)
    requires p.PCopy? && ProducerOk(m, p) && p.i == p.n && p.from == m.pt
    ensures var m' := m.(pt := p.from + p.n); Shape(m') && Bounds(m') && Contents(m')
  {
    var m' := m.(pt := p.from + p.n);
    forall j | m.ct <= j < m'.pt
      ensures Holds(m', j)
    {
      assert Holds(m, j);
    }
  }

  lemma PublishProducer(m: Mem, pt: nat, p: Producer)
    requires ProducerOk(m, p) && (p.PCopy? ==> pt <= p.from)
    ensures ProducerOk(m.(pt := pt), p)
  {
    if p.PCopy? {
      var m' := m.(pt := pt);
      forall j | p.from <= j < p.from + p.i
        ensures Holds(m', j)
      {
        assert Holds(m, j);
      }
    }
  }

  lemma PublishConsumer(m: Mem, pt: nat, c: Consumer)
    requires ConsumerOk(m, c) && m.pt <= pt
    ensures ConsumerOk(m.(pt := pt), c)
  {
  }

  lemma PPublishKeeps(s: State, s': State, id: nat)
    requires Inv(s) && PPublish(s, s', id)
    ensures Inv(s')
  {
    hide Shape, Bounds, Contents, Tiles, ProducerOk, ConsumerOk, Holds, PListed, CListed;
    var p := s.prods[id];
    OldestProducer(s, id);
    PublishContents(s.m, p);
    TilesPop(s.pq, s.m.pt, s.m.ph);
    PopListed(s.prods, s.pq, s.m.pt, s.m.ph);
    PublishersOk(s, s', id);
  }

  lemma PublishersOk(s: State, s': State, id: nat)
    requires ProducersOk(s.m, s.prods) && ConsumersOk(s.m, s.conss)
    requires s.m.pt <= s'.m.pt && s'.m == s.m.(pt := s'.m.pt) && s'.prods == s.prods - {id} && s'.conss == s.conss
    requires Tiles(s'.pq, s'.m.pt, s'.m.ph) && PListed(s'.prods, s'.pq)
    ensures ProducersOk(s'.m, s'.prods) && ConsumersOk(s'.m, s'.conss)
  {
    hide Tiles, ProducerOk, ConsumerOk, PListed;
    forall y | y in s'.prods
      ensures ProducerOk(s'.m, s'.prods[y])
    {
      if s.prods[y].PCopy? {
        PLater(s', y);
      }
      PublishProducer(s.m, s'.m.pt, s.prods[y]);
    }
    forall y | y in s'.conss
      ensures ConsumerOk(s'.m, s'.conss[y])
    {
      PublishConsumer(s.m, s'.m.pt, s.conss[y]);
    }
  }

  lemma PLater(s: State, id: nat)
    requires Tiles(s.pq, s.m.pt, s.m.ph) && PListed(s.prods, s.pq) && id in s.prods && s.prods[id].PCopy?
    ensures s.m.pt <= s.prods[id].from
  {
    TilesRange(s.pq, s.m.pt, s.m.ph, Resv(id, s.prods[id].from, s.prods[id].n));
  }

  lemma TilesHead(q: seq<Resv>, lo: nat, hi: nat)
    requires Tiles(q, lo, hi) && q != []
    ensures forall r :: r in q[1..] ==> r in q && q[0].from < r.from
    ensures forall r :: r in q && r != q[0] ==> r in q[1..]
  {
    forall r | r in q[1..]
      ensures r in q && q[0].from < r.from
    {
      var a :| 0 <= a < |q[1..]| && q[1..][a] == r;
      assert q[a + 1] == r && q[0].from + q[0].n <= q[a + 1].from;
    }
    forall r | r in q && r != q[0]
      ensures r in q[1..]
    {
      var a :| 0 <= a < |q| && q[a] == r;
      assert q[1..][a - 1] == r;
    }
  }

  lemma PopListed(prods: map<nat, Producer>, q: seq<Resv>, lo: nat, hi: nat)
    requires PListed(prods, q) && Tiles(q, lo, hi) && q != []
    ensures PListed(prods - {q[0].id}, q[1..])
  {
    TilesHead(q, lo, hi);
    hide Tiles;
    var first, rest := q[0], q[1..];
    assert first in q;
    forall r | r in rest
      ensures r.id != first.id
    {
      assert r in q;
    }
    forall id | id in prods && prods[id].PCopy? && id != first.id
      ensures Resv(id, prods[id].from, prods[id].n) in rest
    {
      assert Resv(id, prods[id].from, prods[id].n) != first;
    }
  }

  // ---------------------------------------------------------------- a consumer moves the head

  /** A consumer that wins the race knows the entry count exactly, and all its entries are published. */
  lemma TailWon(m: Mem, c: Consumer)
    requires Shape(m) && Bounds(m) && c.CReady? && ConsumerOk(m, c)
    requires Fresh(m.ch, c.from) && (m.sc || Word(m.ch) == Word(c.from))
    ensures c.from == m.ch
    ensures c.entries == c.seen - m.ch
    ensures c.entries <= m.size - 1
    ensures m.ch + c.n <= m.pt && c.n >= 1
  {
    EntriesIs(c.seen, c.from);
  }

  lemma TakeMem(m: Mem, n: nat)
    requires Shape(m) && Bounds(m) && Contents(m) && m.ch + n <= m.pt
    ensures var m' := m.(ch := m.ch + n); Shape(m') && Bounds(m') && Contents(m')
  {
    hide Pow2;
    var m' := m.(ch := m.ch + n);
    forall j | m.ct <= j < m.pt
      ensures Holds(m', j)
    {
      assert Holds(m, j);
    }
  }

  lemma TakeProducer(m: Mem, n: nat, p: Producer)
    requires ProducerOk(m, p)
    ensures ProducerOk(m.(ch := m.ch + n), p)
  {
    if p.PCopy? {
      var m' := m.(ch := m.ch + n);
      forall j | p.from <= j < p.from + p.i
        ensures Holds(m', j)
      {
        assert Holds(m, j);
      }
    }
  }

  lemma TakeConsumer(m: Mem, n: nat, c: Consumer)
    requires ConsumerOk(m, c) && m.ch + n <= |m.enq| && (m.sc ==> c.CStart? || c.CCopy?)
    ensures ConsumerOk(m.(ch := m.ch + n), c)
  {
  }

  lemma TakenOk(m: Mem, c: Consumer)
    requires Shape(m) && Bounds(m) && Contents(m) && c.CReady? && ConsumerOk(m, c) && c.from == m.ch
    requires m.ch + c.n <= m.pt
    ensures ConsumerOk(m.(ch := m.ch + c.n), CCopy(c.from, c.n, []))
    ensures m.ch + c.n <= |m.enq|
  {
    hide Pow2, Holds;
  }

  lemma CMoveHeadKeeps(s: State, s': State, id: nat)
    requires Inv(s) && CMoveHead(s, s', id) && Fresh(s.m.ch, s.conss[id].from)
    ensures Inv(s')
  {
    hide Shape, Bounds, Contents, Tiles, ProducerOk, ConsumerOk, Holds, PListed, CListed;
    var c := s.conss[id];
    if s.m.sc || Word(s.m.ch) == Word(c.from) {
      TailWon(s.m, c);
      TakeMem(s.m, c.n);
      TilesAppend(s.cq, s.m.ct, s.m.ch, Resv(id, c.from, c.n));
      CListed1(s.conss, s.cq, id, c.from, c.n);
      TakersOk(s, s', id);
    } else {
      CStartOk(s.m, c);
      SetConsumer(s, id, CStart(c.max, c.beh));
    }
  }

  lemma CStartOk(m: Mem, c: Consumer)
    requires c.CReady?
    ensures ConsumerOk(m, CStart(c.max, c.beh))
  {
  }

  lemma TakersOk(s: State, s': State, id: nat)
    requires Shape(s.m) && Bounds(s.m) && Contents(s.m)
    requires ProducersOk(s.m, s.prods) && ConsumersOk(s.m, s.conss) && Alone(s) && id in s.conss && s.conss[id].CReady?
    requires var c := s.conss[id];
      && c.from == s.m.ch && s.m.ch + c.n <= s.m.pt && s'.m == s.m.(ch := s.m.ch + c.n)
      && s'.conss == s.conss[id := CCopy(c.from, c.n, [])] && s'.prods == s.prods
    ensures ProducersOk(s'.m, s'.prods) && ConsumersOk(s'.m, s'.conss)
  {
    hide Shape, Bounds, Contents, ProducerOk, ConsumerOk, Holds;
    var c := s.conss[id];
    TakenOk(s.m, c);
    forall x | x in s'.prods
      ensures ProducerOk(s'.m, s'.prods[x])
    {
      TakeProducer(s.m, c.n, s.prods[x]);
    }
    forall x | x in s'.conss
      ensures ConsumerOk(s'.m, s'.conss[x])
    {
      if x != id {
        TakeConsumer(s.m, c.n, s.conss[x]);
      }
    }
  }

  lemma CListed1(conss: map<nat, Consumer>, q: seq<Resv>, id: nat, from: nat, n: nat)
    requires CListed(conss, q) && (id in conss ==> !conss[id].CCopy?)
    ensures CListed(conss[id := CCopy(from, n, [])], q + [Resv(id, from, n)])
  {
    var q' := q + [Resv(id, from, n)];
    assert q'[|q|] == Resv(id, from, n);
    assert forall r :: r in q ==> r in q';
  }

  // ---------------------------------------------------------------- a consumer copies one object

  lemma ReadObject(m: Mem, c: Consumer)
    requires Shape(m) && Bounds(m) && Contents(m) && c.CCopy? && ConsumerOk(m, c) && |c.got| < c.n
    ensures var x := c.from + |c.got|;
      && m.ct <= x < m.ch <= m.pt && x < |m.enq| && x !in m.deq && 0 < m.size
      && SlotOf(m.size, c.from, |c.got|) < |m.slots| && m.slots[SlotOf(m.size, c.from, |c.got|)] == m.enq[x]
  {
    var x := c.from + |c.got|;
    SlotIs(m.k, m.size, c.from, |c.got|);
    assert Holds(m, x);
  }

  lemma OutMem(m: Mem, x: nat)
    requires Shape(m) && Bounds(m) && Contents(m) && x < m.ch && x < |m.enq|
    ensures var m' := m.(deq := m.deq[x := m.enq[x]]); Shape(m') && Bounds(m') && Contents(m')
  {
    hide Pow2;
    var m' := m.(deq := m.deq[x := m.enq[x]]);
    forall j | m.ct <= j < m.pt
      ensures Holds(m', j)
    {
      assert Holds(m, j);
    }
  }

  lemma OutProducer(m: Mem, x: nat, p: Producer)
    requires ProducerOk(m, p) && x < |m.enq|
    ensures ProducerOk(m.(deq := m.deq[x := m.enq[x]]), p)
  {
    if p.PCopy? {
      var m' := m.(deq := m.deq[x := m.enq[x]]);
      forall j | p.from <= j < p.from + p.i
        ensures Holds(m', j)
      {
        assert Holds(m, j);
      }
    }
  }

  lemma OutConsumer(m: Mem, x: nat, c: Consumer)
    requires ConsumerOk(m, c) && x < |m.enq|
    requires c.CCopy? ==> x < c.from || c.from + c.n <= x
    ensures ConsumerOk(m.(deq := m.deq[x := m.enq[x]]), c)
  {
  }

  lemma OutSelf(m: Mem, c: Consumer)
    requires ConsumerOk(m, c) && c.CCopy? && |c.got| < c.n
    ensures var x := c.from + |c.got|;
      x < |m.enq| && ConsumerOk(m.(deq := m.deq[x := m.enq[x]]), c.(got := c.got + [m.enq[x]]))
  {
    var x := c.from + |c.got|;
    assert m.enq[c.from..x + 1] == m.enq[c.from..x] + [m.enq[x]];
  }

  /** Two consumers in flight never have a position in common. */
  lemma CApart(s: State, a: nat, b: nat, x: nat)
    requires Tiles(s.cq, s.m.ct, s.m.ch) && CListed(s.conss, s.cq)
    requires a in s.conss && b in s.conss && a != b && s.conss[a].CCopy? && s.conss[b].CCopy?
    requires s.conss[a].from <= x < s.conss[a].from + s.conss[a].n
    ensures x < s.conss[b].from || s.conss[b].from + s.conss[b].n <= x
  {
    var r, t := Resv(a, s.conss[a].from, s.conss[a].n), Resv(b, s.conss[b].from, s.conss[b].n);
    if t.from <= x < t.from + t.n {
      TilesApart(s.cq, s.m.ct, s.m.ch, r, t, x);
      assert false;
    }
  }

  lemma CCopyOneKeeps(s: State, s': State, id: nat)
    requires Inv(s) && CCopyOne(s, s', id)
    ensures Inv(s')
  {
    hide Shape, Bounds, Contents, Tiles, ProducerOk, ConsumerOk, Holds, SlotOf, PListed, CListed;
    var c := s.conss[id];
    ReadObject(s.m, c);
    hide ProducersOk, ConsumersOk;
    OutMem(s.m, c.from + |c.got|);
    OutsOk(s, s', id);
    CListed2(s.conss, s.cq, id, s.m.enq[c.from + |c.got|]);
  }

  lemma CListed2(conss: map<nat, Consumer>, q: seq<Resv>, id: nat, v: Obj)
    requires CListed(conss, q) && id in conss && conss[id].CCopy?
    ensures CListed(conss[id := conss[id].(got := conss[id].got + [v])], q)
  {
  }

  lemma OutsOk(s: State, s': State, id: nat)
    requires Inv(s) && id in s.conss && s.conss[id].CCopy? && |s.conss[id].got| < s.conss[id].n
    requires var c := s.conss[id];
      var x := c.from + |c.got|;
      && x < |s.m.enq| && s'.m == s.m.(deq := s.m.deq[x := s.m.enq[x]])
      && s'.conss == s.conss[id := c.(got := c.got + [s.m.enq[x]])] && s'.prods == s.prods
    ensures ProducersOk(s'.m, s'.prods) && ConsumersOk(s'.m, s'.conss)
  {
    hide Shape, Bounds, Contents, Tiles, ProducerOk, ConsumerOk, Holds, PListed, CListed;
    var x := s.conss[id].from + |s.conss[id].got|;
    forall y | y in s'.prods
      ensures ProducerOk(s'.m, s'.prods[y])
    {
      OutProducer(s.m, x, s.prods[y]);
    }
    forall y | y in s'.conss
      ensures ConsumerOk(s'.m, s'.conss[y])
    {
      if y == id {
        OutSelf(s.m, s.conss[id]);
      } else {
        if s.conss[y].CCopy? {
          CApart(s, id, y, x);
        }
        OutConsumer(s.m, x, s.conss[y]);
      }
    }
  }

  // ---------------------------------------------------------------- a consumer publishes

  lemma OldestConsumer(s: State, id: nat)
    requires Inv(s) && id in s.conss && s.conss[id].CCopy?
    requires s.m.sc || Word(s.m.ct) == Word(s.conss[id].from)
    ensures s.cq != [] && s.cq[0] == Resv(id, s.conss[id].from, s.conss[id].n) && s.conss[id].from == s.m.ct
  {
    var c := s.conss[id];
    assert ConsumerOk(s.m, c);
    TilesRange(s.cq, s.m.ct, s.m.ch, Resv(id, c.from, c.n));
    assert s.cq[0] in s.cq;
    hide Pow2, Tiles, Contents, ProducerOk, ConsumerOk;
    if !s.m.sc {
      WordsApart(c.from, s.m.ct);
    }
  }

  lemma FreeMem(m: Mem, c: Consumer)
    requires Shape(m) && Bounds(m) && Contents(m)
    requires c.CCopy? && ConsumerOk(m, c) && |c.got| == c.n && c.from == m.ct
    ensures var m' := m.(ct := c.from + c.n); Shape(m') && Bounds(m') && Contents(m')
  {
    hide Pow2;
    var m' := m.(ct := c.from + c.n);
    forall j | c.from + c.n <= j < m.pt
      ensures Holds(m', j)
    {
      assert Holds(m, j);
    }
  }

  lemma FreeProducer(m: Mem, ct: nat, p: Producer)
    requires ProducerOk(m, p) && m.ct <= ct
    ensures ProducerOk(m.(ct := ct), p)
  {
    if p.PCopy? {
      var m' := m.(ct := ct);
      forall j | p.from <= j < p.from + p.i
        ensures Holds(m', j)
      {
        assert Holds(m, j);
      }
    }
  }

  lemma FreeConsumer(m: Mem, ct: nat, c: Consumer)
    requires ConsumerOk(m, c) && (c.CCopy? ==> ct <= c.from)
    ensures ConsumerOk(m.(ct := ct), c)
  {
  }

  lemma CPublishKeeps(s: State, s': State, id: nat)
    requires Inv(s) && CPublish(s, s', id)
    ensures Inv(s')
  {
    hide Shape, Bounds, Contents, Tiles, ProducerOk, ConsumerOk, Holds, PListed, CListed;
    OldestConsumer(s, id);
    FreeMem(s.m, s.conss[id]);
    TilesPop(s.cq, s.m.ct, s.m.ch);
    CPopListed(s.conss, s.cq, s.m.ct, s.m.ch);
    FreersOk(s, s', id);
  }

  lemma FreersOk(s: State, s': State, id: nat)
    requires ProducersOk(s.m, s.prods) && ConsumersOk(s.m, s.conss)
    requires s.m.ct <= s'.m.ct && s'.m == s.m.(ct := s'.m.ct) && s'.conss == s.conss - {id} && s'.prods == s.prods
    requires Tiles(s'.cq, s'.m.ct, s'.m.ch) && CListed(s'.conss, s'.cq)
    ensures ProducersOk(s'.m, s'.prods) && ConsumersOk(s'.m, s'.conss)
  {
    hide Tiles, ProducerOk, ConsumerOk, CListed;
    forall y | y in s'.prods
      ensures ProducerOk(s'.m, s'.prods[y])
    {
      FreeProducer(s.m, s'.m.ct, s.prods[y]);
    }
    forall y | y in s'.conss
      ensures ConsumerOk(s'.m, s'.conss[y])
    {
      if s.conss[y].CCopy? {
        CLater(s', y);
      }
      FreeConsumer(s.m, s'.m.ct, s.conss[y]);
    }
  }

  lemma CLater(s: State, id: nat)
    requires Tiles(s.cq, s.m.ct, s.m.ch) && CListed(s.conss, s.cq) && id in s.conss && s.conss[id].CCopy?
    ensures s.m.ct <= s.conss[id].from
  {
    TilesRange(s.cq, s.m.ct, s.m.ch, Resv(id, s.conss[id].from, s.conss[id].n));
  }

  lemma CPopListed(conss: map<nat, Consumer>, q: seq<Resv>, lo: nat, hi: nat)
    requires CListed(conss, q) && Tiles(q, lo, hi) && q != []
    ensures CListed(conss - {q[0].id}, q[1..])
  {
    TilesHead(q, lo, hi);
    hide Tiles;
    var first, rest := q[0], q[1..];
    assert first in q;
    forall r | r in rest
      ensures r.id != first.id
    {
      assert r in q;
    }
    forall id | id in conss && conss[id].CCopy? && id != first.id
      ensures Resv(id, conss[id].from, conss[id].n) in rest
    {
      assert Resv(id, conss[id].from, conss[id].n) != first;
    }
  }

  // ---------------------------------------------------------------- every run

  ghost predicate ByProducer(e: Event) {
    e.EPBegin? || e.EPLoadHead? || e.EPReadTail? || e.EPMoveHead? || e.EPCopyOne? || e.EPPublish?
  }

  lemma ProducerStepKeeps(s: State, s': State, id: nat, e: Event)
    requires Inv(s) && ByProducer(e) && Does(s, s', id, e) && NoAba(s, id, e)
    ensures Inv(s')
  {
    hide Inv, Fresh, ProducerOk, Bounds, PReadTail, PCopyOne, PPublish;
    match e
    case EPBegin(objs, beh) =>
      BegunOk(s, objs, beh);
      SetProducer(s, id, PStart(objs, beh));
    case EPLoadHead =>
      LoadedOk(s, id);
      SetProducer(s, id, PLoaded(s.prods[id].objs, s.prods[id].beh, s.m.ph));
    case EPReadTail => PReadTailKeeps(s, s', id);
    case EPMoveHead => PMoveHeadKeeps(s, s', id);
    case EPCopyOne => PCopyOneKeeps(s, s', id);
    case EPPublish => PPublishKeeps(s, s', id);
  }

  lemma ConsumerStepKeeps(s: State, s': State, id: nat, e: Event)
    requires Inv(s) && !ByProducer(e) && Does(s, s', id, e) && NoAba(s, id, e)
    ensures Inv(s')
  {
    hide Inv, Fresh, Bounds, CReadTail, CCopyOne, CPublish;
    match e
    case ECBegin(max, beh) => SetConsumer(s, id, CStart(max, beh));
    case ECLoadHead => SetConsumer(s, id, CLoaded(s.conss[id].max, s.conss[id].beh, s.m.ch));
    case ECReadTail => CReadTailKeeps(s, s', id);
    case ECMoveHead => CMoveHeadKeeps(s, s', id);
    case ECCopyOne => CCopyOneKeeps(s, s', id);
    case ECPublish => CPublishKeeps(s, s', id);
  }

  lemma StepKeeps(s: State, s': State, id: nat, e: Event)
    requires Inv(s) && Does(s, s', id, e) && NoAba(s, id, e)
    ensures Inv(s')
  {
    hide Inv, NoAba, Does;
    if ByProducer(e) {
      ProducerStepKeeps(s, s', id, e);
    } else {
      ConsumerStepKeeps(s, s', id, e);
    }
  }

  lemma BegunOk(s: State, objs: seq<Obj>, beh: Behavior)
    requires |objs| < WORD
    ensures ProducerOk(s.m, PStart(objs, beh))
  {
  }

  lemma LoadedOk(s: State, id: nat)
    requires Inv(s) && id in s.prods && s.prods[id].PStart?
    ensures ProducerOk(s.m, PLoaded(s.prods[id].objs, s.prods[id].beh, s.m.ph))
  {
    assert ProducerOk(s.m, s.prods[id]);
    hide Shape, Contents, Tiles, PListed, CListed, ConsumersOk, Alone;
  }

  lemma {:induction false} RunKeeps(r: seq<State>)
    requires Run(r)
    ensures forall i :: 0 <= i < |r| ==> Inv(r[i])
  {
    hide Inv, Init, NoAba, Does;
    if |r| == 1 {
      InitInv(r[0]);
    } else {
      var q := r[..|r| - 1];
      assert forall i :: 0 <= i < |q| - 1 ==> Next(r[i], r[i + 1]);
      RunKeeps(q);
      var s, s' := r[|r| - 2], r[|r| - 1];
      assert q[|r| - 2] == s && Next(s, s');
      var id, e :| Does(s, s', id, e) && NoAba(s, id, e);
      StepKeeps(s, s', id, e);
    }
  }
}
