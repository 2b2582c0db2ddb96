/**
 The reader/writer lock as a step system, and under it the searches and updates of the array
 index, one memory access at a time.

 Two locks share the protocol: one whose writer unlocks by an atomic increment, and one whose
 writer tries the compare-and-set at once and unlocks by storing 0 (`store`).
 */
module RwLock {
  import opened FbWords
  import opened FbMasks

  const INT32_MAX: int := 0x7fff_ffff

  /** What an atomic operation leaves in an int32_t. */
  function Wrap(x: int): int { (x + 0x8000_0000) % 0x1_0000_0000 - 0x8000_0000 }

  /** `len`, the mask words, the cached count and the lock word. */
  datatype Mem = Mem(len: nat, data: seq<Word>, count: nat, cnt: int)

  /** What a reader can load under the lock. */
  datatype Loc = AtWord(idx: nat) | AtCount | AtLen

  ghost function Peek(m: Mem, l: Loc): int {
    match l
    case AtWord(idx) => if idx < |m.data| then m.data[idx] else 0
    case AtCount => m.count
    case AtLen => m.len
  }

  datatype Move = Ask(l: Loc) | Answer(r: int)

  /** Any search: from the values it has loaded so far it makes out what to load next, or its answer. */
  type Program = seq<int> -> Move

  /** The values that a program loads from memory m, one after the other. */
  ghost predicate Trace(p: Program, m: Mem, got: seq<int>) {
    forall k :: 0 <= k < |got| ==> p(got[..k]).Ask? && got[k] == Peek(m, p(got[..k]).l)
  }

  /** find_next, any other search, or an update. */
  datatype Op = Find(start: nat, used: bool) | Look(p: Program) | Set(idx: nat, used: bool)

  ghost predicate InRange(op: Op, len: nat) {
    match op
    case Find(start, _) => start < len
    case Look(_) => true
    case Set(idx, _) => idx < len
  }

  /** A thread; one that holds the read lock remembers what memory was when it took it. */
  datatype Thread =
    | Idle
    | Wait(op: Op)
    | Seen(op: Op, x: int)
    | Enter(start: nat, used: bool, snap: Mem)
    | Search(start: nat, used: bool, idx: nat, snap: Mem)
    | Found(start: nat, used: bool, r: int, snap: Mem)
    | Scan(p: Program, got: seq<int>, snap: Mem)
    | Hold(idx: nat, used: bool)
    | Read(idx: nat, used: bool, w: Word)
    | Stored(idx: nat, used: bool)
    | Out(idx: nat, used: bool)
  {
    /** Inside the read lock. */
    predicate Reads() { Enter? || Search? || Found? || Scan? }

    /** Inside the write lock. */
    predicate Writes() { Hold? || Read? || Stored? || Out? }
  }

  datatype State = State(store: bool, m: Mem, threads: map<nat, Thread>)

  // ---------------------------------------------------------------- steps

  ghost predicate Init(s: State) {
    && 1 <= s.m.len <= 64 * |s.m.data| < s.m.len + 64
    && NoneBeyond(s.m.data, s.m.len) && s.m.count == Ones(s.m.data, s.m.len) && s.m.cnt == 0
    && (forall id :: id in s.threads ==> s.threads[id] == Idle)
    && |s.threads| < INT32_MAX
  }

  /** A call whose arguments are in range; others return at once. */
  ghost predicate Begin(s: State, s': State, id: nat, op: Op) {
    && id in s.threads && s.threads[id].Idle?
    && InRange(op, s.m.len)
    && s' == s.(threads := s.threads[id := Wait(op)])
  }

  /** Loads the lock word; a word that shows a lock in the way is loaded again. */
  ghost predicate Load(s: State, s': State, id: nat) {
    && id in s.threads && s.threads[id].Wait?
    && var op := s.threads[id].op;
       s' == if (if op.Set? then s.m.cnt != 0 else s.m.cnt < 0) then s
             else s.(threads := s.threads[id := Seen(op, s.m.cnt)])
  }

  /** A reader as it enters the lock. */
  ghost function Inside(op: Op, snap: Mem): Thread
    requires !op.Set?
  {
    if op.Find? then Enter(op.start, op.used, snap) else Scan(op.p, [], snap)
  }

  /** A weak compare-and-set may fail though the word is the expected one. */
  ghost predicate CasFails(s: State, s': State, id: nat) {
    && s.store && id in s.threads && (s.threads[id].Seen? || (s.threads[id].Wait? && s.threads[id].op.Set?))
    && s' == s.(threads := s.threads[id := Wait(s.threads[id].op)])
  }

  /** The compare-and-set to one reader more. */
  ghost predicate ReadLock(s: State, s': State, id: nat) {
    && id in s.threads && s.threads[id].Seen? && !s.threads[id].op.Set?
    && var op, x := s.threads[id].op, s.threads[id].x;
       if s.m.cnt == x then
         s' == s.(m := s.m.(cnt := Wrap(x + 1)), threads := s.threads[id := Inside(op, s.m.(cnt := 0))])
       else s' == s.(threads := s.threads[id := Wait(op)])
  }

  /** The compare-and-set from 0 to -1; the lock with a plain store tries it without a load. */
  ghost predicate WriteLock(s: State, s': State, id: nat) {
    && id in s.threads && (s.threads[id].Seen? || (s.store && s.threads[id].Wait?)) && s.threads[id].op.Set?
    && var op := s.threads[id].op;
       if s.m.cnt == 0 then
         s' == s.(m := s.m.(cnt := -1), threads := s.threads[id := Hold(op.idx, op.used)])
       else s' == s.(threads := s.threads[id := Wait(op)])
  }

  /** The look at the count: no entry in the wanted state at all. */
  ghost predicate CheckCount(s: State, s': State, id: nat) {
    && id in s.threads && s.threads[id].Enter?
    && var t := s.threads[id];
       if s.m.count == (if t.used then 0 else s.m.len) then
         s' == s.(threads := s.threads[id := Found(t.start, t.used, -1, t.snap)])
       else s' == s.(threads := s.threads[id := Search(t.start, t.used, MaskLenToIdx(t.start), t.snap)])
  }

  /** One round of the search: one word is read. */
  ghost predicate SearchOne(s: State, s': State, id: nat) {
    && id in s.threads && s.threads[id].Search?
    && var t := s.threads[id];
       if t.idx < |s.m.data| then
         var cur := MaskWord(s.m.data[t.idx], t.idx, MaskLenToIdx(t.start), MaskLenToMod(t.start), s.m.len, t.used);
         s' == s.(threads := s.threads[id := if cur == 0 then Search(t.start, t.used, t.idx + 1, t.snap)
                                             else Found(t.start, t.used, MaskGetIdx(t.idx, Ctz(cur)), t.snap)])
       else s' == s.(threads := s.threads[id := Found(t.start, t.used, -1, t.snap)])
  }

  /** Any other search loads one value. */
  ghost predicate ScanOne(s: State, s': State, id: nat) {
    && id in s.threads && s.threads[id].Scan?
    && var t := s.threads[id];
       && t.p(t.got).Ask?
       && s' == s.(threads := s.threads[id := t.(got := t.got + [Peek(s.m, t.p(t.got).l)])])
  }

  /** A search has come to its answer. */
  ghost predicate Answered(t: Thread) { t.Found? || (t.Scan? && t.p(t.got).Answer?) }

  ghost predicate ReadUnlock(s: State, s': State, id: nat) {
    && id in s.threads && Answered(s.threads[id])
    && s' == s.(m := s.m.(cnt := Wrap(s.m.cnt - 1)), threads := s.threads[id := Idle])
  }

  ghost predicate ReadWord(s: State, s': State, id: nat) {
    && id in s.threads && s.threads[id].Hold? && MaskLenToIdx(s.threads[id].idx) < |s.m.data|
    && var t := s.threads[id];
       s' == s.(threads := s.threads[id := Read(t.idx, t.used, s.m.data[MaskLenToIdx(t.idx)])])
  }

  /** The word with the bit of an entry set or cleared. */
  function Marked(w: Word, idx: nat, used: bool): Word {
    var bit := ShiftLeft(1, MaskLenToMod(idx));
    if used then Or(w, bit) else And(w, Not(bit))
  }

  ghost predicate AlreadyUsed(w: Word, idx: nat) {
    And(w, ShiftLeft(1, MaskLenToMod(idx))) != 0
  }

  ghost predicate StoreWord(s: State, s': State, id: nat) {
    && id in s.threads && s.threads[id].Read? && MaskLenToIdx(s.threads[id].idx) < |s.m.data|
    && var t := s.threads[id];
       s' == if t.used == AlreadyUsed(t.w, t.idx) then s.(threads := s.threads[id := Out(t.idx, t.used)])
             else s.(m := s.m.(data := s.m.data[MaskLenToIdx(t.idx) := Marked(t.w, t.idx, t.used)]),
                     threads := s.threads[id := Stored(t.idx, t.used)])
  }

  ghost predicate StoreCount(s: State, s': State, id: nat) {
    && id in s.threads && s.threads[id].Stored?
    && var t := s.threads[id];
       && (t.used || s.m.count > 0)
       && s' == s.(m := s.m.(count := if t.used then s.m.count + 1 else s.m.count - 1),
                   threads := s.threads[id := Out(t.idx, t.used)])
  }

  ghost predicate WriteUnlock(s: State, s': State, id: nat) {
    && id in s.threads && s.threads[id].Out?
    && s' == s.(m := s.m.(cnt := if s.store then 0 else Wrap(s.m.cnt + 1)), threads := s.threads[id := Idle])
  }

  datatype Event =
    | EBegin(op: Op) | ELoad | EReadLock | EWriteLock | ECheckCount | ESearchOne | EReadUnlock
    | EReadWord | EStoreWord | EStoreCount | EWriteUnlock | EScanOne | ECasFails

  ghost predicate Does(s: State, s': State, id: nat, e: Event) {
    match e
    case EBegin(op) => Begin(s, s', id, op)
    case ELoad => Load(s, s', id)
    case EReadLock => ReadLock(s, s', id)
    case EWriteLock => WriteLock(s, s', id)
    case ECheckCount => CheckCount(s, s', id)
    case ESearchOne => SearchOne(s, s', id)
    case EReadUnlock => ReadUnlock(s, s', id)
    case EReadWord => ReadWord(s, s', id)
    case EStoreWord => StoreWord(s, s', id)
    case EStoreCount => StoreCount(s, s', id)
    case EWriteUnlock => WriteUnlock(s, s', id)
    case EScanOne => ScanOne(s, s', id)
    case ECasFails => CasFails(s, s', id)
  }

  ghost predicate Next(s: State, s': State) {
    exists id, e :: Does(s, s', id, e)
  }

  ghost predicate Run(r: seq<State>) {
    && |r| > 0 && Init(r[0])
    && forall i :: 0 <= i < |r| - 1 ==> Next(r[i], r[i + 1])
  }

  // ---------------------------------------------------------------- the lock

  ghost function Readers(threads: map<nat, Thread>): set<nat> {
    set id | id in threads && threads[id].Reads()
  }

  ghost function Writers(threads: map<nat, Thread>): set<nat> {
    set id | id in threads && threads[id].Writes()
  }

  /** The lock word is the number of readers, or -1 with one writer and no reader. */
  ghost predicate Locked(s: State) {
    || (s.m.cnt == |Readers(s.threads)| && Writers(s.threads) == {})
    || (s.m.cnt == -1 && |Writers(s.threads)| == 1 && Readers(s.threads) == {})
  }

  lemma ReadersSet(threads: map<nat, Thread>, id: nat, t: Thread)
    requires id in threads
    ensures var after := threads[id := t];
      && Readers(after) == (if t.Reads() then Readers(threads) + {id} else Readers(threads) - {id})
      && Writers(after) == (if t.Writes() then Writers(threads) + {id} else Writers(threads) - {id})
      && |after| == |threads|
  {
    var after := threads[id := t];
    assert after.Keys == threads.Keys;
  }

  lemma FewReaders(threads: map<nat, Thread>)
    ensures |Readers(threads)| <= |threads|
  {
    assert Readers(threads) <= threads.Keys;
    SubsetSize(Readers(threads), threads.Keys);
  }

  lemma {:induction false} SubsetSize(a: set<nat>, b: set<nat>)
    requires a <= b
    ensures |a| <= |b|
  {
    if x :| x in a {
      SubsetSize(a - {x}, b - {x});
    }
  }

  lemma WrapIs(x: int)
    requires -0x8000_0000 <= x <= INT32_MAX
    ensures Wrap(x) == x
  {
  }

  /** One thread goes on without entering or leaving the lock. */
  lemma LockSame(s: State, s': State, id: nat, t: Thread)
    requires Locked(s) && id in s.threads && s'.threads == s.threads[id := t] && s'.m.cnt == s.m.cnt
    requires t.Reads() == s.threads[id].Reads() && t.Writes() == s.threads[id].Writes()
    ensures Locked(s')
  {
    ReadersSet(s.threads, id, t);
    assert Readers(s'.threads) == Readers(s.threads) && Writers(s'.threads) == Writers(s.threads);
  }

  lemma LockReader(s: State, s': State, id: nat, t: Thread)
    requires Locked(s) && |s.threads| < INT32_MAX && id in s.threads && s'.threads == s.threads[id := t]
    requires !s.threads[id].Reads() && !s.threads[id].Writes() && t.Reads() && !t.Writes()
    requires s.m.cnt >= 0 && s'.m.cnt == Wrap(s.m.cnt + 1)
    ensures Locked(s')
  {
    ReadersSet(s.threads, id, t);
    FewReaders(s.threads);
    WrapIs(s.m.cnt + 1);
    assert Writers(s'.threads) == {};
  }

  lemma UnlockReader(s: State, s': State, id: nat, t: Thread)
    requires Locked(s) && |s.threads| < INT32_MAX && id in s.threads && s'.threads == s.threads[id := t]
    requires s.threads[id].Reads() && !t.Reads() && !t.Writes() && s'.m.cnt == Wrap(s.m.cnt - 1)
    ensures Locked(s')
  {
    ReadersSet(s.threads, id, t);
    FewReaders(s.threads);
    assert id in Readers(s.threads);
    WrapIs(s.m.cnt - 1);
    assert Writers(s'.threads) == {};
  }

  lemma LockWriter(s: State, s': State, id: nat, t: Thread)
    requires Locked(s) && id in s.threads && s'.threads == s.threads[id := t]
    requires !s.threads[id].Reads() && !t.Reads() && t.Writes() && s.m.cnt == 0 && s'.m.cnt == -1
    ensures Locked(s')
  {
    ReadersSet(s.threads, id, t);
    assert Readers(s.threads) == {} && Writers(s'.threads) == {id};
  }

  lemma UnlockWriter(s: State, s': State, id: nat, t: Thread)
    requires Locked(s) && id in s.threads && s'.threads == s.threads[id := t]
    requires s.threads[id].Writes() && !t.Reads() && !t.Writes() && (s'.m.cnt == 0 || s'.m.cnt == Wrap(s.m.cnt + 1))
    ensures Locked(s')
  {
    ReadersSet(s.threads, id, t);
    OneWriter(s, id);
    WrapIs(0);
    assert Writers(s'.threads) == {} && Readers(s'.threads) == {};
  }

  /** A writer is alone. */
  lemma OneWriter(s: State, id: nat)
    requires Locked(s) && id in s.threads && s.threads[id].Writes()
    ensures s.m.cnt == -1 && Writers(s.threads) == {id} && Readers(s.threads) == {}
    ensures forall x :: x in s.threads && x != id ==> !s.threads[x].Writes() && !s.threads[x].Reads()
  {
    assert id in Writers(s.threads);
    var rest := Writers(s.threads) - {id};
    assert |rest| == 0;
    assert forall x :: x in s.threads && s.threads[x].Writes() ==> x in Writers(s.threads) && (x == id || x in rest);
    assert forall x :: x in s.threads && s.threads[x].Reads() ==> x in Readers(s.threads);
  }

  /** A reader sees no writer. */
  lemma NoWriter(s: State, id: nat)
    requires Locked(s) && id in s.threads && s.threads[id].Reads()
    ensures forall x :: x in s.threads ==> !s.threads[x].Writes()
  {
    assert id in Readers(s.threads);
    assert forall x :: x in s.threads && s.threads[x].Writes() ==> x in Writers(s.threads);
  }

  // ---------------------------------------------------------------- what the lock protects

  ghost predicate Covered(m: Mem) {
    1 <= m.len <= 64 * |m.data| < m.len + 64 && NoneBeyond(m.data, m.len)
  }

  /** What a thread knows; one inside the read lock knows that memory is as it found it. */
  ghost predicate ThreadOk(m: Mem, t: Thread) {
    match t
    case Idle => true
    case Wait(op) => InRange(op, m.len)
    case Seen(op, x) => InRange(op, m.len) && (if op.Set? then x == 0 else x >= 0)
    case Enter(start, used, snap) => start < m.len && snap == m.(cnt := 0)
    case Search(start, used, idx, snap) =>
      && start < m.len && snap == m.(cnt := 0) && MaskLenToIdx(start) <= idx <= |m.data|
      && NoneIn(m.data, start, Reached(idx, MaskLenToIdx(start), start, m.len), used)
    case Found(start, used, r, snap) => start < m.len && snap == m.(cnt := 0)
         && NextFound(m.data, r, start, m.len, used)
    case Scan(p, got, snap) => snap == m.(cnt := 0) && Trace(p, snap, got)
    case Hold(idx, used) => idx < m.len
    case Read(idx, used, w) => idx < m.len && MaskLenToIdx(idx) < |m.data| && w == m.data[MaskLenToIdx(idx)]
    case Stored(idx, used) => idx < m.len && Wanted(m.data, idx, used)
    case Out(idx, used) => idx < m.len && Wanted(m.data, idx, used)
  }

  /** The count is right whenever no writer is between its two stores. */
  ghost predicate Counted(m: Mem, threads: map<nat, Thread>)
    requires Covered(m)
  {
    && (forall id :: id in threads && threads[id].Stored? ==>
          (if threads[id].used then m.count + 1 == Ones(m.data, m.len) else m.count == Ones(m.data, m.len) + 1))
    && ((forall id :: id in threads ==> !threads[id].Stored?) ==> m.count == Ones(m.data, m.len))
  }

  ghost predicate ThreadsOk(m: Mem, threads: map<nat, Thread>) {
    forall id :: id in threads ==> ThreadOk(m, threads[id])
  }

  ghost predicate Inv(s: State) {
    && |s.threads| < INT32_MAX && Locked(s) && Covered(s.m) && ThreadsOk(s.m, s.threads) && Counted(s.m, s.threads)
  }

  /** One thread goes on, memory but for the lock word stays. */
  lemma StepOver(s: State, s': State, id: nat, t: Thread, cnt: int)
    requires Inv(s) && id in s.threads && s' == s.(m := s.m.(cnt := cnt), threads := s.threads[id := t])
    requires Locked(s') && ThreadOk(s.m, t) && !t.Stored? && !s.threads[id].Stored?
    ensures Inv(s')
  {
    hide Locked, ThreadOk, Counted, NoneBeyond, Ones;
    assert s'.threads.Keys == s.threads.Keys;
    forall x | x in s'.threads
      ensures ThreadOk(s'.m, s'.threads[x])
    {
      CntAside(s.m, cnt, s'.threads[x]);
    }
    CountedOver(s.m, s.threads, id, t, cnt);
  }

  lemma CountedOver(m: Mem, threads: map<nat, Thread>, id: nat, t: Thread, cnt: int)
    requires Covered(m) && Counted(m, threads) && id in threads && !t.Stored? && !threads[id].Stored?
    ensures Counted(m.(cnt := cnt), threads[id := t])
  {
    var after := threads[id := t];
    if forall x :: x in after ==> !after[x].Stored? {
      forall x | x in threads
        ensures !threads[x].Stored?
      {
        assert x in after;
      }
    }
    hide NoneBeyond;
  }

  lemma CntAside(m: Mem, cnt: int, t: Thread)
    requires ThreadOk(m, t)
    ensures ThreadOk(m.(cnt := cnt), t)
  {
  }

  lemma SearchOk(m: Mem, t: Thread, t': Thread)
    requires Covered(m) && t.Search? && ThreadOk(m, t)
    requires if t.idx < |m.data| then
               var cur := MaskWord(m.data[t.idx], t.idx, MaskLenToIdx(t.start), MaskLenToMod(t.start), m.len, t.used);
               t' == if cur == 0 then Search(t.start, t.used, t.idx + 1, t.snap)
                 else Found(t.start, t.used, MaskGetIdx(t.idx, Ctz(cur)), t.snap)
             else t' == Found(t.start, t.used, -1, t.snap)
    ensures ThreadOk(m, t')
  {
    hide MaskWord, Sees, NoneIn, Lo, Hi, Reached, Ctz, NoneBeyond, Wanted;
    SplitIs(t.start);
    var first, firstMod := MaskLenToIdx(t.start), MaskLenToMod(t.start);
    StartAt(first, t.start, m.len, |m.data|);
    if t.idx < |m.data| {
      MaskWordSees(m.data, t.idx, first, firstMod, m.len, t.used);
      var cur := MaskWord(m.data[t.idx], t.idx, first, firstMod, m.len, t.used);
      NextStep(cur, m.data, t.idx, first, firstMod, t.start, m.len, t.used);
    }
  }

  lemma CheckOk(s: State, id: nat, t: Thread)
    requires Inv(s) && id in s.threads && s.threads[id].Enter? && t == s.threads[id]
    ensures s.m.count == (if t.used then 0 else s.m.len) ==> ThreadOk(s.m, Found(t.start, t.used, -1, t.snap))
    ensures ThreadOk(s.m, Search(t.start, t.used, MaskLenToIdx(t.start), t.snap))
  {
    NoWriter(s, id);
    SplitIs(t.start);
    StartAt(MaskLenToIdx(t.start), t.start, s.m.len, |s.m.data|);
    NoneBelow(s.m.data, t.start, t.start, t.used);
    assert ThreadOk(s.m, t);
    assert s.m.count == Ones(s.m.data, s.m.len);
    hide Locked, NoneIn, MaskLenToIdx, MaskLenToMod, Ones;
    if s.m.count == (if t.used then 0 else s.m.len) {
      NoneLeft(s.m.data, t.start, s.m.len, t.used);
    }
  }

  // ---------------------------------------------------------------- the writer

  lemma AlreadyIs(d: seq<Word>, idx: nat)
    requires idx < 64 * |d|
    ensures MaskLenToIdx(idx) < |d| && (AlreadyUsed(d[MaskLenToIdx(idx)], idx) <==> Flag(d, idx))
  {
    SplitIs(idx);
    BitOps(d[MaskLenToIdx(idx)], MaskLenToMod(idx));
    FlagOf(d, MaskLenToIdx(idx), MaskLenToMod(idx));
    hide Bit, Flag, And, ShiftLeft;
  }

  /** Marking an entry that was not, or unmarking one that was, changes the count by one. */
  lemma MarkIs(d: seq<Word>, idx: nat, len: nat, used: bool)
    requires idx < len <= 64 * |d| && NoneBeyond(d, len) && (Flag(d, idx) <==> !used)
    ensures MaskLenToIdx(idx) < |d|
    ensures var e := d[MaskLenToIdx(idx) := Marked(d[MaskLenToIdx(idx)], idx, used)];
      && NoneBeyond(e, len) && Wanted(e, idx, used)
      && (forall i :: 0 <= i < 64 * |d| && i != idx ==> (Flag(e, i) <==> Flag(d, i)))
      && (if used then Ones(e, len) == Ones(d, len) + 1 else Ones(e, len) + 1 == Ones(d, len))
  {
    SplitIs(idx);
    var w := d[MaskLenToIdx(idx)];
    BitOps(w, MaskLenToMod(idx));
    hide Bit, And, Or, Not, ShiftLeft;
    FlagSet(d, idx, Marked(w, idx, used), used);
    var e := d[MaskLenToIdx(idx) := Marked(w, idx, used)];
    hide Flag;
    OneChanged(d, e, idx, len);
  }

  /** A thread outside the lock does not look at the mask or the count. */
  lemma OutsideOk(m: Mem, m': Mem, t: Thread)
    requires ThreadOk(m, t) && !t.Reads() && !t.Writes() && m'.len == m.len
    ensures ThreadOk(m', t)
  {
  }

  lemma OthersOk(s: State, m': Mem, id: nat, t: Thread)
    requires Inv(s) && id in s.threads && s.threads[id].Writes() && m'.len == s.m.len && ThreadOk(m', t)
    ensures ThreadsOk(m', s.threads[id := t])
  {
    OneWriter(s, id);
    hide ThreadOk, Locked, Counted, Covered;
    forall x | x in s.threads && x != id
      ensures ThreadOk(m', s.threads[x])
    {
      OutsideOk(s.m, m', s.threads[x]);
    }
  }

  lemma StoreWordKeeps(s: State, s': State, id: nat)
    requires Inv(s) && StoreWord(s, s', id)
    ensures Inv(s')
  {
    hide AlreadyUsed, Flag, Ones, NoneBeyond;
    var t := s.threads[id];
    assert ThreadOk(s.m, t);
    AlreadyIs(s.m.data, t.idx);
    OneWriter(s, id);
    if t.used == AlreadyUsed(t.w, t.idx) {
      assert ThreadOk(s.m, Out(t.idx, t.used));
      hide ThreadOk, Locked, Counted, Covered, ThreadsOk;
      LockSame(s, s', id, Out(t.idx, t.used));
      StepOver(s, s', id, Out(t.idx, t.used), s.m.cnt);
    } else {
      MarkIs(s.m.data, t.idx, s.m.len, t.used);
      assert ThreadOk(s'.m, Stored(t.idx, t.used));
      hide ThreadOk, Locked, Counted, ThreadsOk;
      ReadersSet(s.threads, id, Stored(t.idx, t.used));
      LockSame(s, s', id, Stored(t.idx, t.used));
      OthersOk(s, s'.m, id, Stored(t.idx, t.used));
      StoredCounted(s, s', id);
    }
  }

  lemma StoredCounted(s: State, s': State, id: nat)
    requires Inv(s) && id in s.threads && s.threads[id].Read? && Covered(s'.m)
    requires s'.threads == s.threads[id := Stored(s.threads[id].idx, s.threads[id].used)] && s'.m.count == s.m.count
    requires if s.threads[id].used then Ones(s'.m.data, s'.m.len) == Ones(s.m.data, s.m.len) + 1
             else Ones(s'.m.data, s'.m.len) + 1 == Ones(s.m.data, s.m.len)
    ensures Counted(s'.m, s'.threads)
  {
    OneWriter(s, id);
    assert s.m.count == Ones(s.m.data, s.m.len);
    hide Ones, NoneBeyond, ThreadOk, Locked;
    assert s'.threads[id].Stored?;
  }

  lemma StoreCountKeeps(s: State, s': State, id: nat)
    requires Inv(s) && StoreCount(s, s', id)
    ensures Inv(s')
  {
    var t := s.threads[id];
    assert ThreadOk(s.m, t);
    OneWriter(s, id);
    ReadersSet(s.threads, id, Out(t.idx, t.used));
    LockSame(s, s', id, Out(t.idx, t.used));
    OthersOk(s, s'.m, id, Out(t.idx, t.used));
    hide Ones, NoneBeyond, ThreadOk, Locked;
    assert s'.m.count == Ones(s'.m.data, s'.m.len);
  }

  // ---------------------------------------------------------------- every run

  lemma SearchOneKeeps(s: State, s': State, id: nat)
    requires Inv(s) && SearchOne(s, s', id)
    ensures Inv(s')
  {
    var t := s.threads[id];
    assert ThreadOk(s.m, t);
    var t' := s'.threads[id];
    hide ThreadOk, MaskWord, Ctz, MaskLenToIdx, MaskLenToMod, NoneBeyond, Counted, Locked;
    SearchOk(s.m, t, t');
    LockSame(s, s', id, t');
    StepOver(s, s', id, t', s.m.cnt);
  }

  lemma ScanOneKeeps(s: State, s': State, id: nat)
    requires Inv(s) && ScanOne(s, s', id)
    ensures Inv(s')
  {
    var t, t' := s.threads[id], s'.threads[id];
    assert ThreadOk(s.m, t);
    TraceMore(t.p, t.snap, t.got);
    assert ThreadOk(s.m, t');
    hide ThreadOk, Trace, Peek, NoneBeyond, Counted, Locked;
    LockSame(s, s', id, t');
    StepOver(s, s', id, t', s.m.cnt);
  }

  lemma TraceMore(p: Program, m: Mem, got: seq<int>)
    requires Trace(p, m, got) && p(got).Ask?
    ensures Trace(p, m, got + [Peek(m, p(got).l)])
  {
    var more := got + [Peek(m, p(got).l)];
    hide Peek;
    forall k | 0 <= k < |more|
      ensures p(more[..k]).Ask? && more[k] == Peek(m, p(more[..k]).l)
    {
      assert more[..k] == got[..k];
      assert k == |got| ==> more[..k] == got;
    }
  }

  lemma LockSteps(s: State, s': State, id: nat, e: Event)
    requires Inv(s) && Does(s, s', id, e) && (e.EReadLock? || e.EWriteLock? || e.EReadUnlock? || e.EWriteUnlock?)
    ensures Inv(s')
  {
    hide Counted, Covered, Wrap;
    var t, t' := s.threads[id], s'.threads[id];
    assert ThreadOk(s.m, t);
    assert ThreadOk(s.m, t') && !t'.Stored? && !t.Stored?;
    hide ThreadsOk, Locked;
    match e {
      case EReadLock =>
        if t'.Wait? {
          LockSame(s, s', id, t');
        } else {
          LockReader(s, s', id, t');
        }
      case EWriteLock =>
        if t'.Wait? {
          LockSame(s, s', id, t');
        } else {
          LockWriter(s, s', id, t');
        }
      case EReadUnlock => UnlockReader(s, s', id, t');
      case EWriteUnlock => UnlockWriter(s, s', id, t');
    }
    StepOver(s, s', id, t', s'.m.cnt);
  }

  lemma PlainSteps(s: State, s': State, id: nat, e: Event)
    requires Inv(s) && Does(s, s', id, e) && (e.EBegin? || e.ELoad? || e.ECheckCount? || e.EReadWord? || e.ECasFails?)
    ensures Inv(s')
  {
    var t, t' := s.threads[id], s'.threads[id];
    assert ThreadOk(s.m, t);
    if e.ECheckCount? {
      CheckOk(s, id, t);
    }
    hide MaskLenToMod, NoneBeyond, NoneIn, NextFound;
    assert ThreadOk(s.m, t') && !t'.Stored? && !t.Stored?;
    hide ThreadsOk, Counted, Covered, Locked, ThreadOk;
    LockSame(s, s', id, t');
    assert s' == s.(m := s.m.(cnt := s.m.cnt), threads := s.threads[id := t']);
    StepOver(s, s', id, t', s.m.cnt);
  }

  lemma StepKeeps(s: State, s': State, id: nat, e: Event)
    requires Inv(s) && Does(s, s', id, e)
    ensures Inv(s')
  {
    hide Inv, Begin, Load, CheckCount, ReadWord, ReadLock, WriteLock;
    hide ReadUnlock, WriteUnlock, SearchOne, StoreWord, StoreCount;
    hide ScanOne, CasFails;
    match e {
      case ESearchOne => SearchOneKeeps(s, s', id);
      case EStoreWord => StoreWordKeeps(s, s', id);
      case EStoreCount => StoreCountKeeps(s, s', id);
      case EBegin(op) => PlainSteps(s, s', id, e);
      case ELoad => PlainSteps(s, s', id, e);
      case ECheckCount => PlainSteps(s, s', id, e);
      case EReadWord => PlainSteps(s, s', id, e);
      case ECasFails => PlainSteps(s, s', id, e);
      case EScanOne => ScanOneKeeps(s, s', id);
      case EReadLock => LockSteps(s, s', id, e);
      case EWriteLock => LockSteps(s, s', id, e);
      case EReadUnlock => LockSteps(s, s', id, e);
      case EWriteUnlock => LockSteps(s, s', id, e);
    }
  }

  lemma InitInv(s: State)
    requires Init(s)
    ensures Inv(s)
  {
    hide NoneBeyond, Ones;
    assert Readers(s.threads) == {} && Writers(s.threads) == {};
  }

  lemma {:induction false} RunKeeps(r: seq<State>)
    requires Run(r)
    ensures forall i :: 0 <= i < |r| ==> Inv(r[i])
  {
    hide Inv, Init, Does;
    if |r| == 1 {
      InitInv(r[0]);
    } else {
      var q := r[..|r| - 1];
      assert forall i :: 0 <= i < |q| - 1 ==> Next(r[i], r[i + 1]);
      RunKeeps(q);
      var s, s' := r[|r| - 2], r[|r| - 1];
      assert q[|r| - 2] == s && Next(s, s');
      var id, e :| Does(s, s', id, e);
      StepKeeps(s, s', id, e);
    }
  }

  /** The lock word counts the readers, or is -1 while a single writer is in and no reader. */
  lemma MutualExclusion(r: seq<State>, i: nat)
    requires Run(r) && i < |r|
    ensures var s := r[i];
      || (s.m.cnt == |Readers(s.threads)| && Writers(s.threads) == {})
      || (s.m.cnt == -1 && |Writers(s.threads)| == 1 && Readers(s.threads) == {})
    ensures -1 <= r[i].m.cnt < INT32_MAX
  {
    RunKeeps(r);
    FewReaders(r[i].threads);
    hide ThreadsOk, Counted, Covered;
  }

  lemma StepHeld(s: State, s': State, id: nat, e: Event, x: nat)
    requires Inv(s) && Does(s, s', id, e) && x in s.threads && s.threads[x].Reads()
    ensures s'.m.data == s.m.data && s'.m.count == s.m.count && s'.m.len == s.m.len
  {
    NoWriter(s, x);
    hide Inv, Locked, MaskWord, Marked, AlreadyUsed, Ctz;
  }

  /** While a thread holds the read lock nothing changes, whatever other threads do: any search is atomic. */
  lemma {:induction false} HeldStill(r: seq<State>, i: nat, j: nat, x: nat)
    requires Run(r) && i <= j < |r|
    requires forall k :: i <= k < j ==> x in r[k].threads && r[k].threads[x].Reads()
    ensures r[j].m.data == r[i].m.data && r[j].m.count == r[i].m.count && r[j].m.len == r[i].m.len
    decreases j - i
  {
    if i < j {
      var k := j - 1;
      assert Next(r[k], r[k + 1]);
      HeldStill(r, i, k, x);
      RunKeeps(r);
      hide Inv, Does, Run;
      var id, e :| Does(r[k], r[j], id, e);
      StepHeld(r[k], r[j], id, e, x);
    }
  }

  /** A search done word by word under the read lock answers for memory as it was when the lock was taken. */
  lemma SearchAnswers(r: seq<State>, i: nat, id: nat)
    requires Run(r) && i < |r| && id in r[i].threads && r[i].threads[id].Found?
    ensures var m, t := r[i].m, r[i].threads[id];
      && t.snap == m.(cnt := 0) && t.start < m.len <= 64 * |m.data|
      && NextFound(t.snap.data, t.r, t.start, t.snap.len, t.used)
      && t.snap.count == Ones(t.snap.data, t.snap.len)
  {
    RunKeeps(r);
    assert ThreadOk(r[i].m, r[i].threads[id]);
    NoWriter(r[i], id);
    hide Locked, NextFound, Ones, NoneBeyond;
  }

  /**
   Any search that loads one value after the other under the read lock has loaded what memory
   held when the lock was taken, so its answer is the one it gives on that memory alone.
   */
  lemma AnySearchAnswers(r: seq<State>, i: nat, id: nat, alone: seq<int>)
    requires Run(r) && i < |r| && id in r[i].threads && r[i].threads[id].Scan?
    ensures var m, t := r[i].m, r[i].threads[id];
      && t.snap == m.(cnt := 0) && Covered(t.snap) && Trace(t.p, t.snap, t.got)
      && t.snap.count == Ones(t.snap.data, t.snap.len)
      && (Trace(t.p, t.snap, alone) && t.p(alone).Answer? && Answered(t) ==> t.p(t.got) == t.p(alone))
  {
    RunKeeps(r);
    var t := r[i].threads[id];
    assert ThreadOk(r[i].m, t);
    NoWriter(r[i], id);
    hide Locked, Ones, NoneBeyond, Trace, Peek;
    if Trace(t.p, t.snap, alone) && t.p(alone).Answer? && Answered(t) {
      OneTrace(t.p, t.snap, t.got, alone);
    }
  }

  /** On given memory a program loads the same values each time it is run to its answer. */
  lemma OneTrace(p: Program, m: Mem, a: seq<int>, b: seq<int>)
    requires Trace(p, m, a) && Trace(p, m, b) && p(a).Answer? && p(b).Answer?
    ensures a == b
  {
    NotShorter(p, m, a, b);
    NotShorter(p, m, b, a);
    SamePrefix(p, m, a, b, |a|);
    assert a[..|a|] == a && b[..|a|] == b;
  }

  /** A program that has its answer loads nothing more. */
  lemma NotShorter(p: Program, m: Mem, a: seq<int>, b: seq<int>)
    requires Trace(p, m, a) && Trace(p, m, b) && p(a).Answer?
    ensures |b| <= |a|
  {
    assert a[..|a|] == a;
    if |a| < |b| {
      SamePrefix(p, m, a, b, |a|);
    }
  }

  lemma {:induction false} SamePrefix(p: Program, m: Mem, a: seq<int>, b: seq<int>, k: nat)
    requires Trace(p, m, a) && Trace(p, m, b) && k <= |a| <= |b|
    ensures a[..k] == b[..k]
  {
    if k > 0 {
      SamePrefix(p, m, a, b, k - 1);
      assert a[..k] == a[..k - 1] + [a[k - 1]] && b[..k] == b[..k - 1] + [b[k - 1]];
    }
  }

  /** When a writer is about to unlock, its entry is in the state it asked for and the count is right. */
  lemma UpdateDone(r: seq<State>, i: nat, id: nat)
    requires Run(r) && i < |r| && id in r[i].threads && r[i].threads[id].Out?
    ensures var m, t := r[i].m, r[i].threads[id];
      && t.idx < m.len <= 64 * |m.data| && Wanted(m.data, t.idx, t.used)
      && NoneBeyond(m.data, m.len) && m.count == Ones(m.data, m.len)
  {
    RunKeeps(r);
    assert ThreadOk(r[i].m, r[i].threads[id]);
    OneWriter(r[i], id);
    hide Locked, Wanted, Ones, NoneBeyond;
  }

  /** No write to a word touches any entry but the writer's own. */
  lemma WriteTouchesOne(s: State, s': State, id: nat, e: Event)
    requires Inv(s) && Does(s, s', id, e)
    ensures |s'.m.data| == |s.m.data| && s'.m.len == s.m.len
    ensures forall i ::
              0 <= i < 64 * |s.m.data| && (id in s.threads && s.threads[id].Read? ==> i != s.threads[id].idx) ==>
              (Flag(s'.m.data, i) <==> Flag(s.m.data, i))
  {
    if e.EStoreWord? {
      var t := s.threads[id];
      assert ThreadOk(s.m, t);
      AlreadyIs(s.m.data, t.idx);
      hide AlreadyUsed, Flag, Ones, NoneBeyond, Marked;
      if t.used != AlreadyUsed(t.w, t.idx) {
        MarkIs(s.m.data, t.idx, s.m.len, t.used);
      }
    } else {
      hide Inv, Locked, MaskWord, StoreWord, Ctz;
    }
  }

  // ---------------------------------------------------------------- whole calls

  /** What a thread does is done for this call. */
  ghost predicate Serves(t: Thread, op: Op) {
    match t
    case Idle => false
    case Wait(o) => o == op
    case Seen(o, _) => o == op
    case Enter(start, used, _) => op == Find(start, used)
    case Search(start, used, _, _) => op == Find(start, used)
    case Found(start, used, _, _) => op == Find(start, used)
    case Scan(p, _, _) => op == Look(p)
    case Hold(idx, used) => op == Set(idx, used)
    case Read(idx, used, _) => op == Set(idx, used)
    case Stored(idx, used) => op == Set(idx, used)
    case Out(idx, used) => op == Set(idx, used)
  }

  lemma ServesOn(s: State, s': State, x: nat, e: Event, id: nat, op: Op)
    requires Does(s, s', x, e) && id in s.threads && Serves(s.threads[id], op)
    ensures id in s'.threads && (s'.threads[id].Idle? || Serves(s'.threads[id], op))
    ensures s'.threads[id].Idle? ==> Answered(s.threads[id]) || s.threads[id].Out?
  {
    hide MaskWord, Ctz, MaskLenToIdx, MaskLenToMod, Marked, AlreadyUsed, Peek, Wrap;
  }

  /** Thread `id` begins a call with the step after state i and has ended it in state j, not before. */
  ghost predicate Call(r: seq<State>, i: nat, j: nat, id: nat, op: Op) {
    && Run(r) && i < j < |r| && Does(r[i], r[i + 1], id, EBegin(op))
    && (forall k :: i < k < j ==> id in r[k].threads && !r[k].threads[id].Idle?)
    && id in r[j].threads && r[j].threads[id].Idle?
  }

  lemma {:induction false} CallServes(r: seq<State>, i: nat, j: nat, k: nat, id: nat, op: Op)
    requires Call(r, i, j, id, op) && i < k < j
    ensures Serves(r[k].threads[id], op)
  {
    hide Run, Serves;
    if k == i + 1 {
      BeginServes(r[i], r[k], id, op);
    } else {
      var h := k - 1;
      CallServes(r, i, j, h, id, op);
      var x, e := StepOf(r, h);
      hide Does;
      ServesOn(r[h], r[k], x, e, id, op);
    }
  }

  lemma BeginServes(s: State, s': State, id: nat, op: Op)
    requires Begin(s, s', id, op)
    ensures id in s'.threads && !s'.threads[id].Idle? && Serves(s'.threads[id], op)
  {
  }

  lemma StepOf(r: seq<State>, k: nat) returns (x: nat, e: Event)
    requires Run(r) && k + 1 < |r|
    ensures Does(r[k], r[k + 1], x, e)
  {
    hide Does, Init;
    assert Next(r[k], r[k + 1]);
    x, e :| Does(r[k], r[k + 1], x, e);
  }

  /** What a call leaves behind: the answer to its own question, or its own entry in the state it asked for. */
  ghost predicate Done(m: Mem, t: Thread, op: Op) {
    match op
    case Find(start, used) =>
      t.Found? && start < m.len <= 64 * |m.data| && NextFound(m.data, t.r, start, m.len, used)
    case Look(p) => t.Scan? && Trace(p, m.(cnt := 0), t.got) && p(t.got).Answer?
    case Set(idx, used) =>
      && idx < m.len <= 64 * |m.data| && Wanted(m.data, idx, used)
      && NoneBeyond(m.data, m.len) && m.count == Ones(m.data, m.len)
  }

  /**
   Every call that ends has done what it was begun for: a search has its answer for memory as it is
   while the lock is still held, an update has its entry marked and counted. Nothing of that
   changes with the step in which the lock is given up.
   */
  lemma CallEnds(r: seq<State>, i: nat, j: nat, id: nat, op: Op)
    requires Call(r, i, j, id, op)
    ensures i < j - 1 && id in r[j - 1].threads && Done(r[j - 1].m, r[j - 1].threads[id], op)
    ensures r[j].m == r[j - 1].m.(cnt := r[j].m.cnt)
  {
    hide Run, Serves, Done;
    var h := j - 1;
    if h == i {
      BeginServes(r[i], r[j], id, op);
      assert false;
    }
    CallServes(r, i, j, h, id, op);
    var x, e := StepOf(r, h);
    hide Does;
    RunKeeps(r);
    hide Inv;
    ServesOn(r[h], r[j], x, e, id, op);
    if r[h].threads[id].Out? {
      UpdateDone(r, h, id);
    } else if r[h].threads[id].Found? {
      SearchAnswers(r, h, id);
    } else {
      AnySearchAnswers(r, h, id, []);
    }
    DoneIs(r[h].m, r[h].threads[id], op);
    LeavesMemory(r[h], r[j], x, e, id);
  }

  lemma DoneIs(m: Mem, t: Thread, op: Op)
    requires Serves(t, op) && (Answered(t) || t.Out?)
    requires t.Found? ==> t.start < m.len <= 64 * |m.data| && NextFound(m.data, t.r, t.start, m.len, t.used)
    requires t.Scan? ==> Trace(t.p, m.(cnt := 0), t.got)
    requires t.Out? ==> t.idx < m.len <= 64 * |m.data| && Wanted(m.data, t.idx, t.used)
                        && NoneBeyond(m.data, m.len) && m.count == Ones(m.data, m.len)
    ensures Done(m, t, op)
  {
    hide NextFound, Trace, Wanted, NoneBeyond, Ones;
  }

  /** The step in which a thread becomes idle gives up its lock and changes nothing else. */
  lemma LeavesMemory(s: State, s': State, x: nat, e: Event, id: nat)
    requires Does(s, s', x, e) && id in s.threads && id in s'.threads && !s.threads[id].Idle? && s'.threads[id].Idle?
    ensures s'.m == s.m.(cnt := s'.m.cnt)
  {
    hide MaskWord, Ctz, MaskLenToIdx, MaskLenToMod, Marked, AlreadyUsed, Peek, Wrap;
  }

  // ---------------------------------------------------------------- who may enter

  /** A reader comes in beside any number of readers: only a writer keeps it out. */
  lemma ReaderEnters(r: seq<State>, i: nat, id: nat) returns (s': State, s'': State)
    requires Run(r) && i < |r| && id in r[i].threads && r[i].threads[id].Wait? && !r[i].threads[id].op.Set?
    requires Writers(r[i].threads) == {}
    ensures Does(r[i], s', id, ELoad) && Does(s', s'', id, EReadLock)
    ensures s''.threads[id].Reads() && Readers(s''.threads) == Readers(r[i].threads) + {id}
    ensures s''.m == r[i].m.(cnt := |Readers(r[i].threads)| + 1)
  {
    hide Inv, Run, Locked, Readers, Writers, Wrap;
    RunKeeps(r);
    var s := r[i];
    var op := s.threads[id].op;
    CountsReaders(s);
    var t := Inside(op, s.m.(cnt := 0));
    s' := s.(threads := s.threads[id := Seen(op, s.m.cnt)]);
    s'' := s'.(m := s.m.(cnt := Wrap(s.m.cnt + 1)), threads := s'.threads[id := t]);
    WrapIs(s.m.cnt + 1);
    ReadersSet(s.threads, id, t);
    assert s''.threads == s.threads[id := t];
  }

  lemma CountsReaders(s: State)
    requires Inv(s) && Writers(s.threads) == {}
    ensures s.m.cnt == |Readers(s.threads)| < INT32_MAX
  {
    FewReaders(s.threads);
    hide ThreadsOk, Counted, Covered;
  }

  /** A writer comes in when nobody is inside. */
  lemma WriterEnters(r: seq<State>, i: nat, id: nat) returns (s': State, s'': State)
    requires Run(r) && i < |r| && id in r[i].threads && r[i].threads[id].Wait? && r[i].threads[id].op.Set?
    requires Writers(r[i].threads) == {} && Readers(r[i].threads) == {}
    ensures Does(r[i], s', id, ELoad) && Does(s', s'', id, EWriteLock)
    ensures s''.threads[id].Writes() && Writers(s''.threads) == {id} && Readers(s''.threads) == {}
    ensures s''.m == r[i].m.(cnt := -1)
  {
    hide Inv, Run, Locked, Readers, Writers, Wrap;
    RunKeeps(r);
    var s := r[i];
    var op := s.threads[id].op;
    CountsReaders(s);
    var t := Hold(op.idx, op.used);
    s' := s.(threads := s.threads[id := Seen(op, 0)]);
    s'' := s'.(m := s.m.(cnt := -1), threads := s'.threads[id := t]);
    ReadersSet(s.threads, id, t);
    assert s''.threads == s.threads[id := t];
  }

  /** The count is not 0 when an update has cleared a bit and is about to take one off it. */
  lemma SomeCounted(s: State, id: nat)
    requires Inv(s) && id in s.threads && s.threads[id].Stored? && !s.threads[id].used
    ensures s.m.count > 0
  {
    hide Locked, ThreadsOk, Ones, NoneBeyond;
  }

  lemma EntryInside(s: State, id: nat)
    requires Inv(s) && id in s.threads && (s.threads[id].Hold? || s.threads[id].Read?)
    ensures MaskLenToIdx(s.threads[id].idx) < |s.m.data|
  {
    assert ThreadOk(s.m, s.threads[id]);
    hide Locked, Counted, NoneBeyond;
  }

  /** The step of a reader inside its lock. */
  ghost function ReaderStep(s: State, id: nat): Event
    requires id in s.threads && s.threads[id].Reads()
  {
    var t := s.threads[id];
    if Answered(t) then EReadUnlock else if t.Enter? then ECheckCount else if t.Search? then ESearchOne else EScanOne
  }

  /** A thread inside a lock is never stuck: it can make its next step whatever the others do. */
  lemma ReaderGoesOn(s: State, id: nat) returns (s': State)
    requires id in s.threads && s.threads[id].Reads()
    ensures Does(s, s', id, ReaderStep(s, id)) && s'.threads[id] != s.threads[id]
  {
    hide MaskWord, Ctz, MaskLenToIdx, MaskLenToMod, Peek, Wrap;
    var t := s.threads[id];
    if Answered(t) {
      s' := s.(m := s.m.(cnt := Wrap(s.m.cnt - 1)), threads := s.threads[id := Idle]);
    } else if t.Enter? {
      s' := s.(threads := s.threads[id := if s.m.count == (if t.used then 0 else s.m.len)
                                          then Found(t.start, t.used, -1, t.snap)
                                          else Search(t.start, t.used, MaskLenToIdx(t.start), t.snap)]);
    } else if t.Scan? {
      s' := s.(threads := s.threads[id := t.(got := t.got + [Peek(s.m, t.p(t.got).l)])]);
    } else if t.idx < |s.m.data| {
      var cur := MaskWord(s.m.data[t.idx], t.idx, MaskLenToIdx(t.start), MaskLenToMod(t.start), s.m.len, t.used);
      s' := s.(threads := s.threads[id := if cur == 0 then Search(t.start, t.used, t.idx + 1, t.snap)
                                          else Found(t.start, t.used, MaskGetIdx(t.idx, Ctz(cur)), t.snap)]);
    } else {
      s' := s.(threads := s.threads[id := Found(t.start, t.used, -1, t.snap)]);
    }
  }

  lemma WriterGoesOn(s: State, id: nat) returns (s': State, e: Event)
    requires Inv(s) && id in s.threads && s.threads[id].Writes()
    ensures Does(s, s', id, e) && s'.threads[id] != s.threads[id]
  {
    hide Inv, MaskLenToIdx, MaskLenToMod, Marked, AlreadyUsed, Wrap;
    var t := s.threads[id];
    match t {
      case Hold(idx, used) =>
        EntryInside(s, id);
        e, s' := EReadWord, s.(threads := s.threads[id := Read(idx, used, s.m.data[MaskLenToIdx(idx)])]);
      case Read(idx, used, w) =>
        EntryInside(s, id);
        e := EStoreWord;
        s' := if used == AlreadyUsed(w, idx) then s.(threads := s.threads[id := Out(idx, used)])
              else s.(m := s.m.(data := s.m.data[MaskLenToIdx(idx) := Marked(w, idx, used)]),
                      threads := s.threads[id := Stored(idx, used)]);
      case Stored(idx, used) =>
        if !used {
          SomeCounted(s, id);
        }
        e := EStoreCount;
        s' := s.(m := s.m.(count := if used then s.m.count + 1 else s.m.count - 1),
                 threads := s.threads[id := Out(idx, used)]);
      case Out(_, _) =>
        e := EWriteUnlock;
        s' := s.(m := s.m.(cnt := if s.store then 0 else Wrap(s.m.cnt + 1)), threads := s.threads[id := Idle]);
    }
  }
}
