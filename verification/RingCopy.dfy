/**
 The copies between a caller's table and the slots of a ring: four at a time when the stretch
 does not reach the end of the slots, else up to the end and on from slot 0.
 */
module RingCopy {
  import opened Powers

  /** The slot of the i-th position from `head` on. */
  ghost function SlotAt(size: nat, head: nat, i: nat): (j: nat)
    requires size > 0
    ensures j < size
  {
    (head + i) % size
  }

  /** How far slot j lies behind the slot of `head`, going round. */
  ghost function Offset(size: nat, head: nat, j: nat): (i: nat)
    requires size > 0
    ensures i < size
  {
    (j - head) % size
  }

  /** The slots after objs were written from position `head` on, modulo the size. */
  ghost function Stored<T>(slots: seq<T>, head: nat, objs: seq<T>): (r: seq<T>)
    requires |objs| <= |slots|
    ensures |r| == |slots|
  {
    seq(|slots|, j requires 0 <= j < |slots| =>
      if Offset(|slots|, head, j) < |objs| then objs[Offset(|slots|, head, j)] else slots[j])
  }

  /** The n objects from position `head` on. */
  ghost function Fetched<T>(slots: seq<T>, head: nat, n: nat): (r: seq<T>)
    requires |slots| > 0
    ensures |r| == n
  {
    seq(n, i requires 0 <= i < n => slots[SlotAt(|slots|, head, i)])
  }

  lemma FetchOne<T>(slots: seq<T>, head: nat, i: nat)
    requires |slots| > 0
    ensures Fetched(slots, head, i + 1) == Fetched(slots, head, i) + [slots[SlotAt(|slots|, head, i)]]
  {
  }

  /** Slot j is the one for the i-th object exactly when i is its distance from the head. */
  lemma Distance(size: nat, head: nat, i: nat, j: nat)
    requires i < size && j < size
    ensures Offset(size, head, j) == i <==> j == SlotAt(size, head, i)
  {
    var q := (head + i) / size;
    var d := (j - head) / size;
    if j == (head + i) % size {
      assert j - head == -q * size + i by {
        MulNeg(q, size);
      }
      ModUnique(j - head, size, -q, i);
    }
    if (j - head) % size == i {
      assert head + i == -d * size + j by {
        MulNeg(d, size);
      }
      ModUnique(head + i, size, -d, j);
    }
  }

  lemma MulNeg(a: int, b: int)
    ensures (-a) * b == -(a * b)
  {
  }

  /** Slot (head + i) mod size holds objs[i] for every i, and no other slot changes. */
  lemma StoredAt<T>(slots: seq<T>, head: nat, objs: seq<T>)
    requires 0 < |objs| <= |slots|
    ensures forall i :: 0 <= i < |objs| ==> Stored(slots, head, objs)[SlotAt(|slots|, head, i)] == objs[i]
    ensures forall j :: 0 <= j < |slots| && (forall i :: 0 <= i < |objs| ==> j != SlotAt(|slots|, head, i))
                ==> Stored(slots, head, objs)[j] == slots[j]
  {
    var size := |slots|;
    hide SlotAt, Offset;
    forall i | 0 <= i < |objs|
      ensures Stored(slots, head, objs)[SlotAt(size, head, i)] == objs[i]
    {
      Distance(size, head, i, SlotAt(size, head, i));
    }
    forall j | 0 <= j < size && forall i :: 0 <= i < |objs| ==> j != SlotAt(size, head, i)
      ensures Stored(slots, head, objs)[j] == slots[j]
    {
      Distance(size, head, Offset(size, head, j), j);
    }
  }

  /** Writing one more object is writing one slot. */
  lemma StoreOne<T>(slots: seq<T>, head: nat, objs: seq<T>, i: nat)
    requires i < |objs| <= |slots|
    ensures Stored(slots, head, objs[..i + 1]) == Stored(slots, head, objs[..i])[SlotAt(|slots|, head, i) := objs[i]]
  {
    hide SlotAt, Offset;
    var size := |slots|;
    var a, b := Stored(slots, head, objs[..i + 1]), Stored(slots, head, objs[..i])[SlotAt(size, head, i) := objs[i]];
    forall j | 0 <= j < size
      ensures a[j] == b[j]
    {
      Distance(size, head, i, j);
    }
  }

  /** A copy out at the same head gives back what a copy in has put there. */
  lemma CopyOutInverts<T>(slots: seq<T>, head: nat, objs: seq<T>)
    requires 0 < |objs| <= |slots|
    ensures Fetched(Stored(slots, head, objs), head, |objs|) == objs
  {
    StoredAt(slots, head, objs);
    hide SlotAt, Stored;
  }

  lemma SlotsDiffer(size: nat, a: nat, i: nat, b: nat, o: nat)
    requires size > 0 && a + i < b + o < a + i + size
    ensures SlotAt(size, a, i) != SlotAt(size, b, o)
  {
    if (a + i) % size == (b + o) % size {
      ModApart(b + o, a + i, size);
    }
  }

  /** A copy in leaves every object outside its stretch where it was. */
  lemma CopyInFrames<T>(slots: seq<T>, head: nat, objs: seq<T>, other: nat, n: nat)
    requires 0 < |objs| <= |slots|
    requires other <= head && head + |objs| <= other + |slots| && other + n <= head
    ensures Fetched(Stored(slots, head, objs), other, n) == Fetched(slots, other, n)
  {
    var size := |slots|;
    StoredAt(slots, head, objs);
    hide SlotAt, Stored;
    forall i | 0 <= i < n
      ensures Fetched(Stored(slots, head, objs), other, n)[i] == Fetched(slots, other, n)[i]
    {
      forall o | 0 <= o < |objs|
        ensures SlotAt(size, other, i) != SlotAt(size, head, o)
      {
        SlotsDiffer(size, other, i, head, o);
      }
    }
  }

  /** In which slot the i-th object of a copy that starts in slot head mod size goes. */
  lemma SlotFrom(size: nat, head: nat, i: nat)
    requires size > 0 && i < size
    ensures SlotAt(size, head, i) == if head % size + i < size then head % size + i else head % size + i - size
  {
    var q, r := head / size, head % size;
    assert head + i == q * size + (r + i);
    if r + i < size {
      ModUnique(head + i, size, q, r + i);
    } else {
      assert (q + 1) * size == q * size + size;
      ModUnique(head + i, size, q + 1, r + i - size);
    }
  }

  /** A copy of n objects that starts in slot idx has the head `head`. */
  ghost predicate StartsAt(size: nat, head: nat, n: nat, idx: nat) {
    size > 0 && n <= size && idx == head % size && idx < size
  }

  lemma Start(k: nat, size: nat, head: nat, n: nat)
    requires k <= 30 && size == Pow2(k) && n <= size
    ensures 1 <= size <= 0x4000_0000 && StartsAt(size, head, n, BitAnd(head, size - 1))
    ensures BitAnd(head, size - 1) < size && Add32(BitAnd(head, size - 1), n) == BitAnd(head, size - 1) + n
  {
    Pow2Mono(k, 30);
    Pow2Of30();
    MaskIsMod(head, k);
    hide Pow2, BitAnd;
  }

  /** The loop copies all whole groups of four, and the switch the rest. */
  lemma Fours(n: Word32)
    ensures BitAnd(n, WORD - 4) == 4 * (n / 4) && BitAnd(n, 3) == n - 4 * (n / 4) && 0 <= n - 4 * (n / 4) < 4
  {
    ClearLowTwo(n);
    assert Pow2(1) == 2 && Pow2(2) == 4;
    MaskIsMod(n, 2);
  }

  /** The slots after the first i of objs were written. */
  ghost function StoredTo<T>(slots: seq<T>, head: nat, objs: seq<T>, i: nat): seq<T>
    requires i <= |objs| <= |slots|
  {
    Stored(slots, head, objs[..i])
  }

  lemma StoreEnds<T>(slots: seq<T>, head: nat, objs: seq<T>)
    requires |objs| <= |slots|
    ensures slots == StoredTo(slots, head, objs, 0)
    ensures StoredTo(slots, head, objs, |objs|) == Stored(slots, head, objs)
  {
    assert objs[..|objs|] == objs;
  }

  /** The slot about to be written is the one for object i. */
  lemma PutOne<T>(now: seq<T>, was: seq<T>, head: nat, objs: seq<T>, first: nat, idx: nat, i: nat)
    requires i < |objs| <= |was| && idx < |was| && StartsAt(|was|, head, |objs|, first)
    requires idx == first + i || idx == first + i - |was|
    requires |now| == |was| && now == StoredTo(was, head, objs, i)
    ensures now[idx := objs[i]] == StoredTo(was, head, objs, i + 1)
  {
    SlotFrom(|was|, head, i);
    hide SlotAt, Stored;
    StoreOne(was, head, objs, i);
  }

  /** ENQUEUE_PTRS. */
  method EnqueuePtrs<T>(ring: array<T>, ghost k: nat, mask: Word32, prodHead: Word32, objTable: array<T>, n: Word32)
    requires k <= 30 && ring.Length == Pow2(k) && mask == ring.Length - 1
    requires n <= ring.Length && n <= objTable.Length && ring != objTable
    modifies ring
    ensures ring[..] == Stored(old(ring[..]), prodHead, objTable[..n])
  {
    Start(k, ring.Length, prodHead, n);
    hide Pow2, BitAnd, Add32, Stored, StartsAt;
    var size: Word32 := ring.Length;
    var idx: Word32 := BitAnd(prodHead, mask);
    if Add32(idx, n) < size {
      EnqueueStraight(ring, prodHead, idx, objTable, n);
    } else {
      EnqueueWrapped(ring, prodHead, idx, objTable, n);
    }
  }

  method EnqueueStraight<T>(ring: array<T>, ghost prodHead: Word32, start: Word32, objTable: array<T>, n: Word32)
    requires StartsAt(ring.Length, prodHead, n, start) && start + n < ring.Length <= 0x4000_0000
    requires n <= objTable.Length && ring != objTable
    modifies ring
    ensures ring[..] == Stored(old(ring[..]), prodHead, objTable[..n])
  {
    Fours(n);
    hide BitAnd, Stored, StoredTo, StartsAt;
    var idx: Word32, i: Word32 := start, 0;
    ghost var was, objs, g := ring[..], objTable[..n], 0;
    StoreEnds(was, prodHead, objs);
    while i < BitAnd(n, WORD - 4)
      invariant i == 4 * g && g <= n / 4 && idx == start + i
      invariant ring[..] == StoredTo(was, prodHead, objs, i)
    {
      PutOne(ring[..], was, prodHead, objs, start, idx, i);
      ring[idx] := objTable[i];
      PutOne(ring[..], was, prodHead, objs, start, idx + 1, i + 1);
      ring[idx + 1] := objTable[i + 1];
      PutOne(ring[..], was, prodHead, objs, start, idx + 2, i + 2);
      ring[idx + 2] := objTable[i + 2];
      PutOne(ring[..], was, prodHead, objs, start, idx + 3, i + 3);
      ring[idx + 3] := objTable[i + 3];
      i, idx, g := i + 4, idx + 4, g + 1;
    }
    EnqueueRest(ring, was, prodHead, start, idx, objTable, n, i);
  }

  /** The last group of fewer than four, one after the other. */
  method EnqueueRest<T>(ring: array<T>, ghost was: seq<T>, ghost prodHead: Word32, ghost start: Word32,
                        at: Word32, objTable: array<T>, n: Word32, from: Word32)
    requires n <= objTable.Length && ring != objTable && |was| == ring.Length && n <= |was|
    requires from == 4 * (n / 4) && at == start + from && start + n < ring.Length <= 0x4000_0000
    requires StartsAt(|was|, prodHead, n, start)
    requires ring[..] == StoredTo(was, prodHead, objTable[..n], from)
    modifies ring
    ensures ring[..] == StoredTo(was, prodHead, objTable[..n], n)
  {
    Fours(n);
    hide BitAnd, Stored, StoredTo, StartsAt;
    ghost var objs := objTable[..n];
    var idx: Word32, i: Word32 := at, from;
    var rest := BitAnd(n, 3);
    if rest == 3 {
      PutOne(ring[..], was, prodHead, objs, start, idx, i);
      ring[idx] := objTable[i];
      idx, i := idx + 1, i + 1;
    }
    if rest == 3 || rest == 2 {
      PutOne(ring[..], was, prodHead, objs, start, idx, i);
      ring[idx] := objTable[i];
      idx, i := idx + 1, i + 1;
    }
    if rest == 3 || rest == 2 || rest == 1 {
      PutOne(ring[..], was, prodHead, objs, start, idx, i);
      ring[idx] := objTable[i];
      idx, i := idx + 1, i + 1;
    }
  }

  method EnqueueWrapped<T>(ring: array<T>, ghost prodHead: Word32, start: Word32, objTable: array<T>, n: Word32)
    requires StartsAt(ring.Length, prodHead, n, start) && start + n >= ring.Length && start < ring.Length <= 0x4000_0000
    requires n <= objTable.Length && ring != objTable && n <= ring.Length
    modifies ring
    ensures ring[..] == Stored(old(ring[..]), prodHead, objTable[..n])
  {
    hide Stored, StoredTo, StartsAt;
    var size: Word32 := ring.Length;
    var idx: Word32, i: Word32 := start, 0;
    ghost var was, objs := ring[..], objTable[..n];
    StoreEnds(was, prodHead, objs);
    while idx < size
      invariant start <= idx <= size && i == idx - start <= n
      invariant ring[..] == StoredTo(was, prodHead, objs, i)
    {
      PutOne(ring[..], was, prodHead, objs, start, idx, i);
      ring[idx] := objTable[i];
      i, idx := i + 1, idx + 1;
    }
    idx := 0;
    while i < n
      invariant i <= n && idx == i - (size - start) <= start
      invariant ring[..] == StoredTo(was, prodHead, objs, i)
    {
      PutOne(ring[..], was, prodHead, objs, start, idx, i);
      ring[idx] := objTable[i];
      i, idx := i + 1, idx + 1;
    }
  }

  /** The table after the first i objects were read. */
  ghost function FetchedTo<T>(slots: seq<T>, head: nat, was: seq<T>, i: nat): seq<T>
    requires |slots| > 0 && i <= |was|
  {
    Fetched(slots, head, i) + was[i..]
  }

  lemma FetchNone<T>(slots: seq<T>, head: nat, was: seq<T>)
    requires |slots| > 0
    ensures was == FetchedTo(slots, head, was, 0)
  {
  }

  /** The slot about to be read is the one for object i. */
  lemma GetOne<T>(slots: seq<T>, now: seq<T>, was: seq<T>, head: nat, n: nat, first: nat, idx: nat, i: nat)
    requires i < n <= |slots| && i < |was| && idx < |slots| && StartsAt(|slots|, head, n, first)
    requires idx == first + i || idx == first + i - |slots|
    requires |now| == |was| && now == FetchedTo(slots, head, was, i)
    ensures now[i := slots[idx]] == FetchedTo(slots, head, was, i + 1)
  {
    SlotFrom(|slots|, head, i);
    hide SlotAt;
  }

  /** DEQUEUE_PTRS. */
  method DequeuePtrs<T>(ring: array<T>, ghost k: nat, mask: Word32, consHead: Word32, objTable: array<T>, n: Word32)
    requires k <= 30 && ring.Length == Pow2(k) && mask == ring.Length - 1
    requires n <= ring.Length && n <= objTable.Length && ring != objTable
    modifies objTable
    ensures ring.Length > 0 && objTable[..] == FetchedTo(ring[..], consHead, old(objTable[..]), n)
  {
    Start(k, ring.Length, consHead, n);
    hide Pow2, BitAnd, Add32, Fetched, FetchedTo, StartsAt;
    var idx: Word32 := BitAnd(consHead, mask);
    var size: Word32 := ring.Length;
    if Add32(idx, n) < size {
      DequeueStraight(ring, consHead, idx, objTable, n);
    } else {
      DequeueWrapped(ring, consHead, idx, objTable, n);
    }
  }

  method DequeueStraight<T>(ring: array<T>, ghost consHead: Word32, start: Word32, objTable: array<T>, n: Word32)
    requires StartsAt(ring.Length, consHead, n, start) && start + n < ring.Length <= 0x4000_0000
    requires n <= objTable.Length && ring != objTable
    modifies objTable
    ensures ring.Length > 0 && objTable[..] == FetchedTo(ring[..], consHead, old(objTable[..]), n)
  {
    Fours(n);
    hide BitAnd, Fetched, FetchedTo, StartsAt;
    var idx: Word32, i: Word32 := start, 0;
    ghost var was, slots, g := objTable[..], ring[..], 0;
    FetchNone(slots, consHead, was);
    while i < BitAnd(n, WORD - 4)
      invariant i == 4 * g && g <= n / 4 && idx == start + i
      invariant objTable[..] == FetchedTo(slots, consHead, was, i)
    {
      GetOne(slots, objTable[..], was, consHead, n, start, idx, i);
      objTable[i] := ring[idx];
      GetOne(slots, objTable[..], was, consHead, n, start, idx + 1, i + 1);
      objTable[i + 1] := ring[idx + 1];
      GetOne(slots, objTable[..], was, consHead, n, start, idx + 2, i + 2);
      objTable[i + 2] := ring[idx + 2];
      GetOne(slots, objTable[..], was, consHead, n, start, idx + 3, i + 3);
      objTable[i + 3] := ring[idx + 3];
      i, idx, g := i + 4, idx + 4, g + 1;
    }
    DequeueRest(ring, consHead, start, idx, objTable, was, n, i);
  }

  method DequeueRest<T>(ring: array<T>, ghost consHead: Word32, ghost start: Word32, at: Word32,
                        objTable: array<T>, ghost was: seq<T>, n: Word32, from: Word32)
    requires n <= objTable.Length == |was| && ring != objTable && n <= ring.Length
    requires from == 4 * (n / 4) && at == start + from && start + n < ring.Length <= 0x4000_0000
    requires StartsAt(ring.Length, consHead, n, start)
    requires objTable[..] == FetchedTo(ring[..], consHead, was, from)
    modifies objTable
    ensures objTable[..] == FetchedTo(ring[..], consHead, was, n)
  {
    Fours(n);
    hide BitAnd, Fetched, FetchedTo, StartsAt;
    ghost var slots := ring[..];
    var idx: Word32, i: Word32 := at, from;
    var rest := BitAnd(n, 3);
    if rest == 3 {
      GetOne(slots, objTable[..], was, consHead, n, start, idx, i);
      objTable[i] := ring[idx];
      idx, i := idx + 1, i + 1;
    }
    if rest == 3 || rest == 2 {
      GetOne(slots, objTable[..], was, consHead, n, start, idx, i);
      objTable[i] := ring[idx];
      idx, i := idx + 1, i + 1;
    }
    if rest == 3 || rest == 2 || rest == 1 {
      GetOne(slots, objTable[..], was, consHead, n, start, idx, i);
      objTable[i] := ring[idx];
      idx, i := idx + 1, i + 1;
    }
  }

  method DequeueWrapped<T>(ring: array<T>, ghost consHead: Word32, start: Word32, objTable: array<T>, n: Word32)
    requires StartsAt(ring.Length, consHead, n, start) && start + n >= ring.Length && start < ring.Length <= 0x4000_0000
    requires n <= objTable.Length && ring != objTable && n <= ring.Length
    modifies objTable
    ensures ring.Length > 0 && objTable[..] == FetchedTo(ring[..], consHead, old(objTable[..]), n)
  {
    hide Fetched, FetchedTo, StartsAt;
    var size: Word32 := ring.Length;
    var idx: Word32, i: Word32 := start, 0;
    ghost var was, slots := objTable[..], ring[..];
    FetchNone(slots, consHead, was);
    while idx < size
      invariant start <= idx <= size && i == idx - start <= n
      invariant objTable[..] == FetchedTo(slots, consHead, was, i)
    {
      GetOne(slots, objTable[..], was, consHead, n, start, idx, i);
      objTable[i] := ring[idx];
      i, idx := i + 1, idx + 1;
    }
    idx := 0;
    while i < n
      invariant i <= n && idx == i - (size - start) <= start
      invariant objTable[..] == FetchedTo(slots, consHead, was, i)
    {
      GetOne(slots, objTable[..], was, consHead, n, start, idx, i);
      objTable[i] := ring[idx];
      i, idx := i + 1, idx + 1;
    }
  }
}
