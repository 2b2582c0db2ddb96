/**
 The mask words of a file-backed array as flags of its entries: what the searches see of a word
 once they have turned it round, masked it and shifted it.
 */
module FbMasks {
  import opened Powers
  import opened FbWords

  const MASK_ALIGN: nat := 64

  function MaskLenToIdx(x: nat): nat { x / MASK_ALIGN }

  function MaskLenToMod(x: nat): nat { x - x / MASK_ALIGN * MASK_ALIGN }

  lemma SplitIs(x: nat)
    ensures x == 64 * MaskLenToIdx(x) + MaskLenToMod(x) && 0 <= MaskLenToMod(x) < 64
  {
  }

  function MaskGetIdx(idx: nat, mod: nat): nat { idx * MASK_ALIGN + mod }

  // ---------------------------------------------------------------- words seen as flags

  /** Whether entry i is marked in the mask words. */
  ghost predicate Flag(data: seq<Word>, i: nat)
    requires i < MASK_ALIGN * |data|
  {
    Bit(data[i / MASK_ALIGN], i % MASK_ALIGN)
  }

  /** Entry i is in the state that is looked for. */
  ghost predicate Wanted(data: seq<Word>, i: int, used: bool) {
    0 <= i < MASK_ALIGN * |data| && (Flag(data, i) <==> used)
  }

  /** No entry from lo up to hi is in the state that is looked for. */
  ghost predicate NoneIn(data: seq<Word>, lo: int, hi: int, used: bool) {
    forall i :: lo <= i < hi ==> !Wanted(data, i, used)
  }

  lemma NoneJoin(data: seq<Word>, lo: int, mid: int, hi: int, used: bool)
    requires NoneIn(data, lo, mid, used) && NoneIn(data, mid, hi, used)
    ensures NoneIn(data, lo, hi, used)
  {
  }

  /** n entries from i on are in the state that is looked for. */
  ghost predicate RunAt(data: seq<Word>, i: int, n: nat, used: bool) {
    forall j :: i <= j < i + n ==> Wanted(data, j, used)
  }

  /** No run of n wanted entries begins from lo up to hi. */
  ghost predicate NoRunIn(data: seq<Word>, n: nat, lo: int, hi: int, used: bool) {
    forall i :: lo <= i < hi ==> !RunAt(data, i, n, used)
  }

  /** r is the least place in [lo, hi) where n wanted entries lie, or -1 exactly if there is none. */
  ghost predicate LeastRun(data: seq<Word>, r: int, n: nat, lo: int, hi: int, used: bool) {
    if r == -1 then NoRunIn(data, n, lo, hi - n + 1, used)
    else lo <= r && r + n <= hi && RunAt(data, r, n, used) && NoRunIn(data, n, lo, r, used)
  }

  /** No flag is set from len on. */
  ghost predicate NoneBeyond(data: seq<Word>, len: nat) {
    forall i :: len <= i < 64 * |data| ==> !Flag(data, i)
  }

  /** How many of the first n entries are marked. */
  ghost function Ones(data: seq<Word>, n: nat): (c: nat)
    requires n <= MASK_ALIGN * |data|
    ensures c <= n
  {
    if n == 0 then 0 else Ones(data, n - 1) + if Flag(data, n - 1) then 1 else 0
  }

  lemma FlagOf(data: seq<Word>, idx: nat, b: nat)
    requires idx < |data| && b < 64
    ensures Flag(data, 64 * idx + b) <==> Bit(data[idx], b)
  {
    assert (64 * idx + b) / 64 == idx && (64 * idx + b) % 64 == b;
  }

  // ---------------------------------------------------------------- masks

  lemma Masked(w: Word, v: Word)
    ensures forall b :: 0 <= b < 64 ==> (Bit(And(w, v), b) <==> Bit(w, b) && Bit(v, b))
  {
    hide Bit, BitAnd;
    forall b | 0 <= b < 64
      ensures Bit(And(w, v), b) <==> Bit(w, b) && Bit(v, b)
    {
      BitOfAnd(w, v, b);
    }
  }

  lemma Joined(w: Word, v: Word)
    ensures forall b :: 0 <= b < 64 ==> (Bit(Or(w, v), b) <==> Bit(w, b) || Bit(v, b))
  {
    hide Bit, BitOr;
    forall b | 0 <= b < 64
      ensures Bit(Or(w, v), b) <==> Bit(w, b) || Bit(v, b)
    {
      BitOfOr(w, v, b);
    }
  }

  lemma Inverted(w: Word)
    ensures forall b :: 0 <= b < 64 ==> (Bit(Not(w), b) <==> !Bit(w, b))
  {
    WordIs();
    hide Bit, Pow2;
    forall b | 0 <= b < 64
      ensures Bit(Not(w), b) <==> !Bit(w, b)
    {
      BitOfNot(w, 64, b);
    }
  }

  lemma ShiftedRight(w: Word, m: nat)
    ensures forall b :: 0 <= b < 64 ==> (Bit(ShiftRight(w, m), b) <==> b + m < 64 && Bit(w, b + m))
  {
    WordIs();
    hide ShiftRight, Bit, Pow2;
    forall b | 0 <= b < 64
      ensures Bit(ShiftRight(w, m), b) <==> b + m < 64 && Bit(w, b + m)
    {
      BitOfShiftRight(w, m, b);
      if b + m >= 64 {
        BitAbove(w, 64, b + m);
      }
    }
  }

  lemma MaskIs(m: nat)
    requires m < 64
    ensures forall b :: 0 <= b < 64 ==> (Bit(FromMask(m), b) <==> b >= m)
    ensures forall b :: 0 <= b < 64 ==> (Bit(BelowMask(m), b) <==> b < m)
  {
    hide Bit, FromMask, BelowMask;
    forall b | 0 <= b < 64
      ensures Bit(FromMask(m), b) <==> b >= m
      ensures Bit(BelowMask(m), b) <==> b < m
    {
      BitOfMask(m, b);
    }
  }

  // ---------------------------------------------------------------- what a search sees of a word

  /** The bits of cur are the wanted entries of [base, base + 64) that lie in [lo, hi). */
  ghost predicate Sees(cur: Word, d: seq<Word>, base: int, lo: int, hi: int, used: bool) {
    forall b :: 0 <= b < 64 ==> (Bit(cur, b) <==> lo <= base + b < hi && Wanted(d, base + b, used))
  }

  lemma SeesAll(d: seq<Word>, idx: nat)
    requires idx < |d|
    ensures Sees(d[idx], d, 64 * idx, 64 * idx, 64 * idx + 64, true)
    ensures Sees(Not(d[idx]), d, 64 * idx, 64 * idx, 64 * idx + 64, false)
  {
    Inverted(d[idx]);
    hide Not, Bit, Flag;
    forall b | 0 <= b < 64
      ensures Bit(d[idx], b) <==> Wanted(d, 64 * idx + b, true)
      ensures Bit(d[idx], b) <==> !Wanted(d, 64 * idx + b, false)
    {
      FlagOf(d, idx, b);
    }
    hide Wanted;
  }

  lemma SeesBelow(cur: Word, d: seq<Word>, base: int, lo: int, m: nat, used: bool)
    requires Sees(cur, d, base, lo, base + 64, used) && m < 64
    ensures Sees(And(cur, BelowMask(m)), d, base, lo, base + m, used)
  {
    MaskIs(m);
    Masked(cur, BelowMask(m));
    hide And, Bit, BelowMask, Wanted;
  }

  lemma SeesFrom(cur: Word, d: seq<Word>, base: int, m: nat, hi: int, used: bool)
    requires Sees(cur, d, base, base, hi, used) && m < 64
    ensures Sees(And(cur, FromMask(m)), d, base, base + m, hi, used)
  {
    MaskIs(m);
    Masked(cur, FromMask(m));
    hide And, Bit, FromMask, Wanted;
  }

  lemma SeesShifted(cur: Word, d: seq<Word>, base: int, hi: int, m: nat, used: bool)
    requires Sees(cur, d, base, base, hi, used) && hi <= base + 64
    ensures Sees(ShiftRight(cur, m), d, base + m, base + m, hi, used)
  {
    ShiftedRight(cur, m);
    hide ShiftRight, Bit, Wanted;
    forall b | 0 <= b < 64
      ensures Bit(ShiftRight(cur, m), b) <==> base + m <= base + m + b < hi && Wanted(d, base + m + b, used)
    {
      assert b + m < 64 ==> (Bit(cur, b + m) <==> base <= base + (b + m) < hi && Wanted(d, base + (b + m), used));
    }
  }

  /** A word that shows nothing has nothing to show. */
  lemma NothingSeen(cur: Word, d: seq<Word>, base: int, lo: int, hi: int, used: bool)
    requires Sees(cur, d, base, lo, hi, used) && cur == 0 && base <= lo && hi <= base + 64
    ensures NoneIn(d, lo, hi, used)
  {
    ZeroIff(cur);
    hide Bit, Wanted;
    forall i | lo <= i < hi
      ensures !Wanted(d, i, used)
    {
      assert !Bit(cur, i - base);
    }
  }

  lemma LeastSeen(cur: Word, d: seq<Word>, base: int, lo: int, hi: int, used: bool)
    requires Sees(cur, d, base, lo, hi, used) && cur != 0
    ensures Ctz(cur) < 64 && lo <= base + Ctz(cur) < hi && Wanted(d, base + Ctz(cur), used)
    ensures base <= lo ==> NoneIn(d, lo, base + Ctz(cur), used)
  {
    var c := Ctz(cur);
    CtzIs(cur);
    hide Bit, Wanted, Ctz;
    forall i | lo <= i && base <= i < base + c
      ensures !Wanted(d, i, used)
    {
      assert !Bit(cur, i - base);
    }
  }

  /** A word without a hole is a run of 64. */
  lemma FullSeen(cur: Word, d: seq<Word>, base: int, hi: int, used: bool)
    requires Sees(cur, d, base, base, hi, used) && Not(cur) == 0
    ensures RunAt(d, base, 64, used) && base + 64 <= hi
  {
    Inverted(cur);
    ZeroIff(Not(cur));
    hide Bit, Not, Wanted;
    forall i | base <= i < base + 64
      ensures Wanted(d, i, used) && i < hi
    {
      assert Bit(cur, i - base);
    }
    assert Bit(cur, 63);
  }

  /** The first hole of a word ends its run. */
  lemma HoleSeen(cur: Word, d: seq<Word>, base: int, hi: int, used: bool)
    requires Sees(cur, d, base, base, hi, used) && Not(cur) != 0
    ensures var c := Ctz(Not(cur));
      && c < 64 && RunAt(d, base, c, used) && (c > 0 ==> base + c <= hi)
      && (base + c < hi ==> !Wanted(d, base + c, used))
  {
    hide Bit, Not, Wanted, Ctz;
    Inverted(cur);
    CtzIs(Not(cur));
    var c := Ctz(Not(cur));
    forall i | base <= i < base + c
      ensures Wanted(d, i, used) && i < hi
    {
      assert Bit(cur, i - base);
    }
    if c > 0 {
      assert Bit(cur, c - 1);
    }
  }

  // ---------------------------------------------------------------- runs inside a word

  /** n set bits from bit b on. */
  ghost predicate BitRun(w: Word, b: nat, n: nat) {
    b + n <= 64 && forall t :: b <= t < b + n ==> Bit(w, t)
  }

  /** One more and-with-itself-shifted asks for runs that are one longer. */
  lemma ShiftAnd(w: Word, tmp: Word, n: nat)
    requires forall b :: 0 <= b < 64 ==> (Bit(tmp, b) <==> BitRun(w, b, n)) && n >= 1
    ensures forall b :: 0 <= b < 64 ==> (Bit(And(tmp, Shr(tmp)), b) <==> BitRun(w, b, n + 1))
  {
    Masked(tmp, Shr(tmp));
    ShiftedRight(tmp, 1);
    assert ShiftRight(tmp, 1) == Shr(ShiftRight(tmp, 0));
    hide Bit, And, Shr, ShiftRight;
    forall b | 0 <= b < 64
      ensures Bit(And(tmp, Shr(tmp)), b) <==> BitRun(w, b, n + 1)
    {
      if BitRun(w, b, n + 1) {
        assert BitRun(w, b, n) && BitRun(w, b + 1, n);
      }
      if Bit(tmp, b) && b + 1 < 64 && Bit(tmp, b + 1) {
        assert BitRun(w, b, n) && BitRun(w, b + 1, n);
      }
    }
  }

  /** In a word that is seen whole, the runs of bits are the runs of entries. */
  lemma RunSeen(cur: Word, d: seq<Word>, base: int, b: nat, n: nat, used: bool)
    requires Sees(cur, d, base, base, base + 64, used) && b + n <= 64
    ensures BitRun(cur, b, n) <==> RunAt(d, base + b, n, used)
  {
    hide Bit, Wanted;
    if RunAt(d, base + b, n, used) {
      forall t | b <= t < b + n
        ensures Bit(cur, t)
      {
        assert Wanted(d, base + t, used);
      }
    }
    if BitRun(cur, b, n) {
      forall i | base + b <= i < base + b + n
        ensures Wanted(d, i, used)
      {
        assert Bit(cur, i - base);
      }
    }
  }

  /** The run at the end of a word, by counting the leading zeroes of its holes. */
  lemma TailRun(cur: Word)
    ensures var clz := if Not(cur) == 0 then 64 else Clz(Not(cur)); clz <= 64 && BitRun(cur, 64 - clz, clz)
    ensures var clz := if Not(cur) == 0 then 64 else Clz(Not(cur)); clz < 64 ==> !Bit(cur, 63 - clz)
  {
    Inverted(cur);
    ZeroIff(Not(cur));
    if Not(cur) != 0 {
      ClzIs(Not(cur));
    }
    hide Bit, Clz;
  }

  /** A word in which no run of n was found ends in fewer than n set bits. */
  lemma TailShort(cur: Word, tmp: Word, clz: nat, n: nat)
    requires forall b :: 0 <= b < 64 ==> (Bit(tmp, b) <==> BitRun(cur, b, n))
    requires tmp == 0 && n >= 1 && clz <= 64 && BitRun(cur, 64 - clz, clz)
    ensures clz < n
  {
    ZeroIff(tmp);
    hide Bit;
    assert clz >= n ==> BitRun(cur, 64 - clz, n);
    assert clz >= 1 ==> !Bit(tmp, 64 - clz);
  }

  /** No entry beyond the end is marked, so a used run ends at the end. */
  lemma RunInside(d: seq<Word>, r: int, n: nat, len: nat, used: bool)
    requires RunAt(d, r, n, used) && n >= 1
    requires NoneBeyond(d, len)
    ensures 0 <= r && r + n <= 64 * |d| && (used ==> r + n <= len)
  {
    hide Flag;
    assert Wanted(d, r, used) && Wanted(d, r + n - 1, used);
  }

  // ---------------------------------------------------------------- where a search looks

  /** From where to where in word idx a search looks. */
  ghost function Lo(idx: nat, first: nat, firstMod: nat): nat {
    if idx == first then 64 * first + firstMod else 64 * idx
  }

  ghost function Hi(idx: nat, len: nat): nat {
    if idx == len / 64 then len else 64 * idx + 64
  }

  /** How far a search has looked when it comes to word idx. */
  ghost function Reached(idx: nat, first: nat, start: nat, len: nat): nat {
    if idx == first then start else if 64 * idx <= len then 64 * idx else len
  }

  lemma BoundsAt(idx: nat, first: nat, firstMod: nat, start: nat, len: nat, nMasks: nat)
    requires start == 64 * first + firstMod && firstMod < 64 && start < len <= 64 * nMasks < len + 64
    requires first <= idx < nMasks
    ensures 64 * idx <= Lo(idx, first, firstMod) && Lo(idx, first, firstMod) == Reached(idx, first, start, len)
    ensures Hi(idx, len) <= 64 * idx + 64 && Hi(idx, len) == Reached(idx + 1, first, start, len) <= len
    ensures start <= Lo(idx, first, firstMod) < Hi(idx, len)
  {
  }

  /** How many entries of word idx a run that started before, or in it, has to fill. */
  lemma NeedIs(idx: nat, first: nat, firstMod: nat, len: nat, nMasks: nat)
    requires firstMod < 64 && len <= 64 * nMasks < len + 64 && first <= idx < nMasks
    ensures Lo(idx, first, firstMod) + (if idx == first then 64 - firstMod else 64) == 64 * idx + 64
    ensures Hi(idx, len) < 64 * idx + 64 ==> Hi(idx, len) == len
  {
  }

  /** What find_next promises of its result. */
  ghost predicate NextFound(d: seq<Word>, r: int, start: nat, len: nat, used: bool) {
    if r == -1 then NoneIn(d, start, len, used) else start <= r < len && Wanted(d, r, used) && NoneIn(d, start, r, used)
  }

  /** The word that find_next looks at: turned round for free entries, masked at both ends. */
  function MaskWord(w: Word, idx: nat, first: nat, firstMod: nat, len: nat, used: bool): Word {
    var turned := if used then w else Not(w);
    var ended := if idx == MaskLenToIdx(len) then And(turned, BelowMask(MaskLenToMod(len))) else turned;
    if idx == first then And(ended, FromMask(firstMod)) else ended
  }

  lemma MaskWordSees(d: seq<Word>, idx: nat, first: nat, firstMod: nat, len: nat, used: bool)
    requires idx < |d| && firstMod < 64
    ensures Sees(MaskWord(d[idx], idx, first, firstMod, len, used), d, 64 * idx, Lo(idx, first, firstMod),
            Hi(idx, len), used)
  {
    SplitIs(len);
    hide And, Not, FromMask, BelowMask, Sees, Flag;
    SeesAll(d, idx);
    var turned := if used then d[idx] else Not(d[idx]);
    var ended := turned;
    if idx == MaskLenToIdx(len) {
      SeesBelow(turned, d, 64 * idx, 64 * idx, MaskLenToMod(len), used);
      ended := And(turned, BelowMask(MaskLenToMod(len)));
    }
    if idx == first {
      SeesFrom(ended, d, 64 * idx, firstMod, Hi(idx, len), used);
    }
  }

  /** One word of find_next: nothing in it, or its first entry is the next. */
  lemma NextStep(cur: Word, d: seq<Word>, idx: nat, first: nat, firstMod: nat, start: nat, len: nat, used: bool)
    requires start == 64 * first + firstMod && firstMod < 64 && start < len <= 64 * |d| < len + 64 && first <= idx < |d|
    requires Sees(cur, d, 64 * idx, Lo(idx, first, firstMod), Hi(idx, len), used)
    requires NoneIn(d, start, Reached(idx, first, start, len), used)
    ensures if cur == 0 then NoneIn(d, start, Reached(idx + 1, first, start, len), used)
            else NextFound(d, 64 * idx + Ctz(cur), start, len, used)
  {
    hide Sees, Lo, Hi, Reached, Ctz, Wanted, NoneIn;
    BoundsAt(idx, first, firstMod, start, len, |d|);
    var lo, hi := Lo(idx, first, firstMod), Hi(idx, len);
    if cur == 0 {
      NothingSeen(cur, d, 64 * idx, lo, hi, used);
      NoneJoin(d, start, lo, hi, used);
    } else {
      LeastSeen(cur, d, 64 * idx, lo, hi, used);
      NoneJoin(d, start, lo, 64 * idx + Ctz(cur), used);
    }
  }

  lemma StartAt(first: nat, start: nat, len: nat, nMasks: nat)
    requires 64 * first <= start < len <= 64 * nMasks < len + 64
    ensures first < nMasks && Reached(first, first, start, len) == start && Reached(nMasks, first, start, len) == len
  {
  }

  lemma NoneBelow(d: seq<Word>, lo: int, hi: int, used: bool)
    requires hi <= lo
    ensures NoneIn(d, lo, hi, used)
  {
  }

  lemma RunJoin(d: seq<Word>, i: int, n: nat, m: nat, used: bool)
    requires RunAt(d, i, n, used) && RunAt(d, i + n, m, used)
    ensures RunAt(d, i, n + m, used)
  {
  }

  // ---------------------------------------------------------------- counting

  lemma {:induction false} NoneMarked(data: seq<Word>, n: nat)
    requires n <= 64 * |data| && forall i :: 0 <= i < |data| ==> data[i] == 0
    ensures Ones(data, n) == 0
    ensures forall i :: 0 <= i < 64 * |data| ==> !Flag(data, i)
  {
    forall i | 0 <= i < 64 * |data|
      ensures !Flag(data, i)
    {
      var k := data[i / 64];
      ZeroIff(k);
    }
    hide Flag;
    if n > 0 {
      NoneMarked(data, n - 1);
    }
  }

  /** A run of n marked, or of n unmarked, entries needs that many of them. */
  lemma {:induction false} RunCounts(d: seq<Word>, i: nat, n: nat, len: nat, used: bool)
    requires RunAt(d, i, n, used) && i + n <= len <= 64 * |d|
    ensures if used then Ones(d, len) >= n else len - Ones(d, len) >= n
    decreases len
  {
    hide Flag;
    if len > 0 {
      if i + n < len {
        RunCounts(d, i, n, len - 1, used);
      } else if n > 0 {
        assert Wanted(d, i + n - 1, used);
        RunCounts(d, i, n - 1, len - 1, used);
      }
    }
  }

  /** Pigeonholes: fewer entries in the wanted state than n, so no run of n. */
  lemma TooFew(d: seq<Word>, n: nat, len: nat, used: bool)
    requires len <= 64 * |d| && (if used then Ones(d, len) < n else len - Ones(d, len) < n)
    ensures forall i :: 0 <= i && i + n <= len ==> !RunAt(d, i, n, used)
  {
    forall i | 0 <= i && i + n <= len
      ensures !RunAt(d, i, n, used)
    {
      if RunAt(d, i, n, used) {
        RunCounts(d, i, n, len, used);
      }
    }
  }

  /** When every entry is in the other state, none is found. */
  lemma NoneLeft(d: seq<Word>, start: nat, len: nat, used: bool)
    requires len <= 64 * |d| && Ones(d, len) == if used then 0 else len
    ensures NoneIn(d, start, len, used)
    ensures start <= len ==> RunAt(d, start, len - start, !used)
  {
    hide Flag;
    TooFew(d, 1, len, used);
    forall i | start <= i < len
      ensures !Wanted(d, i, used)
    {
      assert !RunAt(d, i, 1, used);
    }
  }

  /** Changing one flag changes the count by that flag. */
  lemma {:induction false} OneChanged(d: seq<Word>, e: seq<Word>, idx: nat, n: nat)
    requires |d| == |e| && n <= 64 * |d| && idx < 64 * |d|
    requires forall i :: 0 <= i < n && i != idx ==> (Flag(d, i) <==> Flag(e, i))
    ensures Ones(e, n) == Ones(d, n) + if idx >= n || (Flag(d, idx) <==> Flag(e, idx)) then 0
            else if Flag(e, idx) then 1 else -1
  {
    hide Flag;
    if n > 0 {
      OneChanged(d, e, idx, n - 1);
    }
  }

  /** Setting or clearing one bit of one word changes one flag. */
  lemma FlagSet(d: seq<Word>, idx: nat, w: Word, used: bool)
    requires idx < 64 * |d|
    requires forall b :: 0 <= b < 64 ==> (Bit(w, b) <==> if b == idx % 64 then used else Bit(d[idx / 64], b))
    ensures var e := d[idx / 64 := w]; forall i :: 0 <= i < 64 * |d| ==>
            (Flag(e, i) <==> if i == idx then used else Flag(d, i))
  {
    var e := d[idx / 64 := w];
    hide Bit;
    forall i | 0 <= i < 64 * |d|
      ensures Flag(e, i) <==> if i == idx then used else Flag(d, i)
    {
    }
  }

  /** What `&`, `|= bit` and `&= ~bit` do for the bit of an entry. */
  lemma BitOps(w: Word, m: nat)
    requires m < 64
    ensures And(w, ShiftLeft(1, m)) != 0 <==> Bit(w, m)
    ensures forall b :: 0 <= b < 64 ==> (Bit(Or(w, ShiftLeft(1, m)), b) <==> b == m || Bit(w, b))
    ensures forall b :: 0 <= b < 64 ==> (Bit(And(w, Not(ShiftLeft(1, m))), b) <==> b != m && Bit(w, b))
  {
    var one := ShiftLeft(1, m);
    OneIs(m);
    forall b | 0 <= b < 64
      ensures Bit(one, b) <==> b == m
    {
      BitOfPow2(m, b);
    }
    Masked(w, one);
    Joined(w, one);
    Inverted(one);
    Masked(w, Not(one));
    ZeroIff(And(w, one));
    hide Bit, And, Or, Not, ShiftLeft, Pow2;
  }
}
