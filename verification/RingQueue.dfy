/**
 The ring as one caller at a time sees it: creation, and enqueue and dequeue as operations on
 a bounded FIFO queue, whatever the 32-bit indices are.
 */
module RingQueue {
  import opened Powers
  import opened RingCopy
  import opened RingProtocol

  const RING_F_SP_ENQ: Word32 := 0x0001
  const RING_F_SC_DEQ: Word32 := 0x0002
  const RTE_RING_SZ_MASK: Word32 := 0x7fff_ffff
  const RTE_CACHE_LINE_SIZE: nat := 64
  /** Six cache lines: the sizes, the two index pairs and a pad after each. */
  const HEADER: nat := 384
  const PTR_SIZE: nat := 8

  // ---------------------------------------------------------------- sizes

  predicate PowerOf2(x: Word32) { BitAnd(Sub32(x, 1), x) == 0 }

  lemma AlignUpIs(n: nat)
    ensures n <= AlignUp(n) < n + RTE_CACHE_LINE_SIZE && AlignUp(n) % RTE_CACHE_LINE_SIZE == 0
  {
  }

  function AlignUp(n: nat): nat {
    n + (RTE_CACHE_LINE_SIZE - 1) - (n + (RTE_CACHE_LINE_SIZE - 1)) % RTE_CACHE_LINE_SIZE
  }

  /** The bytes needed for a ring of `count` slots, or 0 for a count that is not accepted. */
  function GetMemsize(count: Word32): (sz: nat) {
    if !PowerOf2(count) || count > RTE_RING_SZ_MASK then 0 else AlignUp(HEADER + count * PTR_SIZE)
  }

  lemma TooBig(k: nat)
    requires k > 30
    ensures Pow2(k) >= 0x8000_0000
  {
    Pow2Mono(31, k);
    Pow2Of30();
    assert Pow2(31) == 2 * Pow2(30);
  }

  lemma PowersAccepted(count: Word32)
    requires count > 0
    ensures PowerOf2(count) && count <= RTE_RING_SZ_MASK <==> exists k: nat :: k <= 30 && Pow2(k) == count
  {
    PowerOfTwoTest(count);
    hide BitAnd;
    assert Sub32(count, 1) == count - 1;
    if PowerOf2(count) && count <= RTE_RING_SZ_MASK {
      var k: nat :| Pow2(k) == count;
      if k > 30 {
        TooBig(k);
      }
      hide Pow2;
      assert k <= 30;
    }
    if k: nat :| k <= 30 && Pow2(k) == count {
      Sizes(k);
      hide Pow2;
      assert PowerOf2(count);
    }
  }

  /**
   A count is accepted exactly when it is a power of two up to 2^30, or 0; the size then has
   room for the header and the slots, in whole cache lines.
   */
  lemma MemsizeAccepts(count: Word32)
    ensures GetMemsize(count) > 0 <==> count == 0 || exists k: nat :: k <= 30 && Pow2(k) == count
    ensures GetMemsize(count) > 0 ==>
              && HEADER + count * PTR_SIZE <= GetMemsize(count) < HEADER + count * PTR_SIZE + RTE_CACHE_LINE_SIZE
              && GetMemsize(count) % RTE_CACHE_LINE_SIZE == 0
  {
    AlignUpIs(HEADER + count * PTR_SIZE);
    hide Pow2, AlignUp;
    if count > 0 {
      PowersAccepted(count);
      hide PowerOf2;
    } else {
      assert BitAnd(WORD - 1, 0) == 0;
    }
  }

  // ---------------------------------------------------------------- words against positions

  /** Only the slot of the head counts. */
  lemma SameHead<T>(slots: seq<T>, a: nat, b: nat, objs: seq<T>, n: nat)
    requires |slots| > 0 && a % |slots| == b % |slots| && |objs| <= |slots|
    ensures Stored(slots, a, objs) == Stored(slots, b, objs) && Fetched(slots, a, n) == Fetched(slots, b, n)
  {
    forall j | 0 <= j < |slots|
      ensures Offset(|slots|, a, j) == Offset(|slots|, b, j)
    {
      SameOffset(|slots|, a, b, j);
    }
    hide Offset;
    forall i | 0 <= i < n
      ensures SlotAt(|slots|, a, i) == SlotAt(|slots|, b, i)
    {
      ModShift(a, i, |slots|);
      ModShift(b, i, |slots|);
    }
    hide SlotAt;
  }

  lemma SameOffset(size: nat, a: nat, b: nat, j: nat)
    requires size > 0 && a % size == b % size
    ensures Offset(size, a, j) == Offset(size, b, j)
  {
    var q := a / size - b / size;
    assert j - b == q * size + (j - a) by {
      MulDiff(a / size, b / size, size);
    }
    ModAdd(q, size, j - a);
  }

  /** A word and the position it stands for have the same slot. */
  lemma WordSlot(p: nat, k: nat)
    requires k <= 30
    ensures Pow2(k) > 0 && (p % WORD) % Pow2(k) == p % Pow2(k)
  {
    WordMod(p, k);
  }

  lemma Advance(tail: Word32, other: Word32, n: nat)
    requires Sub32(tail, other) + n < WORD
    ensures Sub32(Add32(tail, n), other) == Sub32(tail, other) + n
    ensures n <= Sub32(tail, other) ==> Sub32(tail, Add32(other, n)) == Sub32(tail, other) - n
    ensures Add32(other, Sub32(tail, other)) == tail
  {
    WordOps(tail, other);
    WordOps(tail, n);
    WordOps(other, n);
    WordOps(Add32(tail, n), other);
    WordOps(tail, Add32(other, n));
    WordOps(other, Sub32(tail, other));
    hide Add32, Sub32;
  }

  /** What the operations on words are without a remainder. */
  lemma WordOps(a: Word32, b: Word32)
    ensures Add32(a, b) == if a + b < WORD then a + b else a + b - WORD
    ensures Sub32(a, b) == if a >= b then a - b else a - b + WORD
  {
  }

  /** capacity + cons.tail - head is what is free. */
  lemma FreeOf(capacity: Word32, tail: Word32, other: Word32)
    requires Sub32(tail, other) <= capacity
    ensures Sub32(Add32(capacity, other), tail) == capacity - Sub32(tail, other)
  {
    WordOps(tail, other);
    WordOps(capacity, other);
    WordOps(Add32(capacity, other), tail);
    hide Add32, Sub32;
  }

  lemma SubSmall(a: Word32, n: Word32)
    requires n <= a
    ensures Sub32(a, n) == a - n
  {
  }

  lemma FetchedSplit<T>(slots: seq<T>, head: nat, n: nat, m: nat)
    requires |slots| > 0
    ensures Fetched(slots, head, n + m) == Fetched(slots, head, n) + Fetched(slots, head + n, m)
  {
  }

  /** Queueing at the producer word appends to what lies between the tails. */
  lemma Appended<T>(k: nat, slots: seq<T>, consTail: Word32, prodTail: Word32, objs: seq<T>)
    requires k <= 30 && |slots| == Pow2(k) && 0 < |objs| && Sub32(prodTail, consTail) + |objs| <= |slots| - 1
    ensures |slots| > 0
    ensures Fetched(Stored(slots, prodTail, objs), consTail, Sub32(prodTail, consTail) + |objs|)
            == Fetched(slots, consTail, Sub32(prodTail, consTail)) + objs
  {
    var cnt := Sub32(prodTail, consTail);
    var head := consTail + cnt;
    Sizes(k);
    Advance(prodTail, consTail, |objs|);
    WordSlot(head, k);
    SameHead(slots, prodTail, head, objs, 0);
    FetchedSplit(Stored(slots, head, objs), consTail, cnt, |objs|);
    CopyInFrames(slots, head, objs, consTail, cnt);
    CopyOutInverts(slots, head, objs);
  }

  lemma Sizes(k: nat)
    requires k <= 30
    ensures 1 <= Pow2(k) <= 0x4000_0000
  {
    Pow2Mono(k, 30);
    Pow2Of30();
  }

  /** Moving the consumer word on drops from the front. */
  lemma Dropped<T>(k: nat, slots: seq<T>, consTail: Word32, prodTail: Word32, n: nat)
    requires k <= 30 && |slots| == Pow2(k) && n <= Sub32(prodTail, consTail) <= |slots| - 1
    ensures |slots| > 0
    ensures Fetched(slots, consTail, n) == Fetched(slots, consTail, Sub32(prodTail, consTail))[..n]
    ensures Fetched(slots, Add32(consTail, n), Sub32(prodTail, consTail) - n)
            == Fetched(slots, consTail, Sub32(prodTail, consTail))[n..]
  {
    var cnt := Sub32(prodTail, consTail);
    Sizes(k);
    WordSlot(consTail + n, k);
    SameHead(slots, Add32(consTail, n), consTail + n, [], cnt - n);
    FetchedSplit(slots, consTail, n, cnt - n);
  }

  lemma MaskKeeps(k: nat, n: Word32)
    requires k <= 30
    ensures Pow2(k) > 0 && (n <= Pow2(k) - 1 ==> BitAnd(n, Pow2(k) - 1) == n)
  {
    MaskIsMod(n, k);
    hide BitAnd, Pow2;
    if n <= Pow2(k) - 1 {
      ModUnique(n, Pow2(k), 0, n);
    }
  }

  lemma FetchedToIs<T>(slots: seq<T>, head: nat, was: seq<T>, n: nat)
    requires |slots| > 0 && n <= |was|
    ensures |FetchedTo(slots, head, was, n)| == |was|
    ensures FetchedTo(slots, head, was, n)[..n] == Fetched(slots, head, n)
    ensures FetchedTo(slots, head, was, n)[n..] == was[n..]
  {
  }

  // ---------------------------------------------------------------- the ring

  class Ring {
    var size: Word32
    var mask: Word32
    var capacity: Word32
    var flags: Word32
    var prodHead: Word32
    var prodTail: Word32
    var prodSingle: bool
    var consHead: Word32
    var consTail: Word32
    var consSingle: bool
    var slots: array<Obj>
    ghost var k: nat

    /** Nobody is between moving a head and publishing a tail. */
    ghost predicate Valid()
      reads this
    {
      && k <= 30 && size == Pow2(k) == slots.Length && mask == size - 1 && capacity == mask
      && prodHead == prodTail && consHead == consTail
      && Sub32(prodTail, consTail) <= capacity
    }

    ghost function Contents(): (s: seq<Obj>)
      requires Valid()
      reads this, slots
      ensures |s| == Sub32(prodTail, consTail) <= capacity
    {
      Sizes(k);
      Fetched(slots[..], consTail, Sub32(prodTail, consTail))
    }

    /** Memory set to zero, then the sizes; the slots come with the memory. */
    constructor Init(count: Word32, ringFlags: Word32)
      ensures fresh(slots) && slots.Length == count
      ensures flags == ringFlags && size == count && mask == Sub32(count, 1) && capacity == mask
      ensures prodHead == prodTail == consHead == consTail == 0
      ensures prodSingle <==> BitAnd(ringFlags, RING_F_SP_ENQ) != 0
      ensures consSingle <==> BitAnd(ringFlags, RING_F_SC_DEQ) != 0
      ensures forall e: nat :: e <= 30 && count == Pow2(e) ==> Valid() && Contents() == []
    {
      flags := ringFlags;
      prodSingle := BitAnd(ringFlags, RING_F_SP_ENQ) != 0;
      consSingle := BitAnd(ringFlags, RING_F_SC_DEQ) != 0;
      size := count;
      mask := Sub32(count, 1);
      capacity := Sub32(count, 1);
      prodHead, consHead := 0, 0;
      prodTail, consTail := 0, 0;
      slots := new Obj[count];
      k := if exists e: nat :: e <= 30 && count == Pow2(e) then var e: nat :| e <= 30 && count == Pow2(e); e else 0;
      new;
      hide Pow2, BitAnd;
      if e: nat :| e <= 30 && count == Pow2(e) {
        Sizes(e);
      }
    }

    /**
     rte_ring_create; a count of 0 is accepted and gives a ring that is not one. `memory` says
     whether malloc has the memory.
     */
    static method Create(count: Word32, ringFlags: Word32, memory: bool) returns (r: Ring?)
      ensures r == null <==> !memory || !(count == 0 || exists e: nat :: e <= 30 && Pow2(e) == count)
      ensures r != null ==> fresh(r) && r.size == count && fresh(r.slots)
      ensures r != null && count > 0 ==> r.Valid() && r.Contents() == [] && r.capacity == count - 1
      ensures r != null && count == 0 ==> !r.Valid() && r.capacity == WORD - 1 && r.slots.Length == 0
    {
      MemsizeAccepts(count);
      var ringSize := GetMemsize(count);
      hide GetMemsize, Pow2, BitAnd;
      if ringSize <= 0 {
        return null;
      }
      if !memory {
        return null;
      }
      r := new Ring.Init(count, ringFlags);
      if e: nat :| e <= 30 && Pow2(e) == count {
        Sizes(e);
      }
      if r.Valid() {
        Sizes(r.k);
      }
    }

    /** The atomic compare-and-set on the producer head. */
    method CasProdHead(expected: Word32, desired: Word32) returns (success: bool)
      modifies this`prodHead
      ensures success == (old(prodHead) == expected)
      ensures prodHead == if success then desired else old(prodHead)
    {
      success := prodHead == expected;
      if success {
        prodHead := desired;
      }
    }

    method CasConsHead(expected: Word32, desired: Word32) returns (success: bool)
      modifies this`consHead
      ensures success == (old(consHead) == expected)
      ensures consHead == if success then desired else old(consHead)
    {
      success := consHead == expected;
      if success {
        consHead := desired;
      }
    }

    method MoveProdHead(isSp: bool, max: Word32, behavior: Behavior)
      returns (n: Word32, oldHead: Word32, newHead: Word32, freeEntries: Word32)
      requires Valid()
      modifies this`prodHead
      ensures freeEntries == capacity - Sub32(prodTail, consTail)
      ensures max <= freeEntries ==> n == max
      ensures max > freeEntries && behavior == Variable ==> n == freeEntries
      ensures max > freeEntries && behavior == Fixed ==> n == 0
      ensures oldHead == old(prodHead)
      ensures prodHead == if n == 0 then old(prodHead) else newHead
      ensures n > 0 ==> newHead == Add32(oldHead, n)
    {
      FreeOf(capacity, prodTail, consTail);
      hide Pow2, Sub32, Add32;
      n, newHead := 0, 0;
      oldHead, freeEntries := 0, 0;
      var success := false;
      while !success
        invariant success ==> n > 0 && n == Grant(max, freeEntries, behavior)
        invariant success ==> freeEntries == capacity - Sub32(prodTail, consTail)
        invariant success ==> oldHead == old(prodHead) && prodHead == newHead == Add32(oldHead, n)
        invariant !success ==> prodHead == old(prodHead)
        decreases if success then 0 else 1
      {
        n := max;
        oldHead := prodHead;
        freeEntries := Sub32(Add32(capacity, consTail), oldHead);
        if n > freeEntries {
          n := if behavior == Fixed then 0 else freeEntries;
        }
        if n == 0 {
          return;
        }
        newHead := Add32(oldHead, n);
        if isSp {
          prodHead := newHead;
          success := true;
        } else {
          success := CasProdHead(oldHead, newHead);
        }
      }
    }

    method MoveConsHead(isSc: bool, max: Word32, behavior: Behavior)
      returns (n: Word32, oldHead: Word32, newHead: Word32, entries: Word32)
      requires Valid()
      modifies this`consHead
      ensures entries == Sub32(prodTail, consTail)
      ensures max <= entries ==> n == max
      ensures max > entries && behavior == Variable ==> n == entries
      ensures max > entries && behavior == Fixed ==> n == 0
      ensures oldHead == old(consHead)
      ensures consHead == if n == 0 then old(consHead) else newHead
      ensures n > 0 ==> newHead == Add32(oldHead, n)
    {
      hide Pow2, Sub32, Add32;
      n, newHead := 0, 0;
      oldHead, entries := 0, 0;
      var success := false;
      while !success
        invariant success ==> n > 0 && n == Grant(max, entries, behavior) && entries == Sub32(prodTail, consTail)
        invariant success ==> oldHead == old(consHead) && consHead == newHead == Add32(oldHead, n)
        invariant !success ==> consHead == old(consHead)
        decreases if success then 0 else 1
      {
        n := max;
        oldHead := consHead;
        entries := Sub32(prodTail, oldHead);
        if n > entries {
          n := if behavior == Fixed then 0 else entries;
        }
        if n == 0 {
          return;
        }
        newHead := Add32(oldHead, n);
        if isSc {
          consHead := newHead;
          success := true;
        } else {
          success := CasConsHead(oldHead, newHead);
        }
      }
    }

    /** As many objects as asked for and as fit, or with FIXED none, go to the end of the queue. */
    method DoEnqueue(objTable: array<Obj>, max: Word32, behavior: Behavior, isSp: bool)
      returns (n: Word32, freeSpace: Word32)
      requires Valid() && max <= objTable.Length && objTable != slots
      modifies this`prodHead, this`prodTail, slots
      ensures Valid()
      ensures max <= capacity - |old(Contents())| ==> n == max
      ensures max > capacity - |old(Contents())| && behavior == Variable ==> n == capacity - |old(Contents())|
      ensures max > capacity - |old(Contents())| && behavior == Fixed ==> n == 0
      ensures Contents() == old(Contents()) + objTable[..n]
      ensures freeSpace == capacity - |Contents()|
    {
      Sizes(k);
      hide Pow2, Stored, Fetched, BitAnd, Add32, Sub32;
      ghost var was := slots[..];
      var head, next, freeEntries;
      n, head, next, freeEntries := MoveProdHead(isSp, max, behavior);
      if n != 0 {
        EnqueuePtrs(slots, k, mask, head, objTable, n);
        prodTail := next;
        Appended(k, was, consTail, head, objTable[..n]);
        Advance(head, consTail, n);
      }
      SubSmall(freeEntries, n);
      freeSpace := Sub32(freeEntries, n);
    }

    /** As many objects as asked for and as are there, or with FIXED none, come from the front. */
    method DoDequeue(objTable: array<Obj>, max: Word32, behavior: Behavior, isSc: bool)
      returns (n: Word32, available: Word32)
      requires Valid() && max <= objTable.Length && objTable != slots
      modifies this`consHead, this`consTail, objTable
      ensures Valid()
      ensures max <= |old(Contents())| ==> n == max
      ensures max > |old(Contents())| && behavior == Variable ==> n == |old(Contents())|
      ensures max > |old(Contents())| && behavior == Fixed ==> n == 0
      ensures objTable[..n] == old(Contents())[..n] && objTable[n..] == old(objTable[n..])
      ensures Contents() == old(Contents())[n..]
      ensures available == |Contents()|
    {
      Sizes(k);
      hide Pow2, Stored, Fetched, FetchedTo, BitAnd, Add32, Sub32;
      ghost var was := objTable[..];
      var head, next, entries;
      n, head, next, entries := MoveConsHead(isSc, max, behavior);
      if n != 0 {
        DequeuePtrs(slots, k, mask, head, objTable, n);
        consTail := next;
        Dropped(k, slots[..], head, prodTail, n);
        Advance(prodTail, head, 0);
        Advance(prodTail, head, n);
        FetchedToIs(slots[..], head, was, n);
      }
      SubSmall(entries, n);
      available := Sub32(entries, n);
    }

    static function CountOf(tail: Word32, other: Word32, mask: Word32, capacity: Word32): Word32 {
      var count := BitAnd(Sub32(tail, other), mask);
      if count > capacity then capacity else count
    }

    /** The number of entries, whatever the words are. */
    function Count(): (c: Word32)
      requires Valid()
      reads this, slots
      ensures c == |Contents()|
    {
      MaskKeeps(k, Sub32(prodTail, consTail));
      CountOf(prodTail, consTail, mask, capacity)
    }

    function FreeCount(): (free: Word32)
      requires Valid()
      reads this, slots
      ensures free == capacity - |Contents()|
    {
      Sub32(capacity, Count())
    }
  }
}
