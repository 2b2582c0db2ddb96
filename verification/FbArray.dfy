/**
 The index of a file-backed array: which entries are in use, in 64-bit mask words, with a
 cached count. The searches go word by word and agree with a scan entry by entry.
 */
module FbArray {
  import Powers
  import opened FbWords
  import opened FbMasks
  import opened FbSearch

  /** The errors that are stored, some of them negated. */
  datatype Errno = Untouched | EINVAL | ENOSPC | ENOENT | MinusENOSPC | MinusENOENT | ENAMETOOLONG | FromSystem

  /** RTE_FBARRAY_NAME_LEN */
  const NAME_LEN: nat := 64

  /** The name of an array: none, or a string of some length. */
  datatype Name = Missing | Name(length: nat)

  /** What a search that found nothing stores. */
  function NotFound(used: bool): Errno { if used then MinusENOENT else MinusENOSPC }

  /** What a caller stores that knows from the count that nothing is to be found. */
  function Exhausted(used: bool): Errno { if used then ENOENT else ENOSPC }

  /** RTE_ALIGN_CEIL(x, MASK_ALIGN) */
  function AlignCeil(x: nat): nat { x + (MASK_ALIGN - 1) - (x + (MASK_ALIGN - 1)) % MASK_ALIGN }

  lemma AlignCeilIs(x: nat)
    ensures x <= 64 * MaskLenToIdx(AlignCeil(x)) < x + 64
  {
  }

  class FbArray {
    var len: nat
    var count: nat
    var nMasks: nat
    var data: array<Word>

    /** The mask covers len entries, marks none beyond them, and the count is right. */
    ghost predicate Valid()
      reads this, data
    {
      && 1 <= len <= INT_MAX && data.Length == nMasks
      && len <= 64 * nMasks < len + 64
      && NoneBeyond(data[..], len)
      && count == Ones(data[..], len)
    }

    constructor (size: nat)
      requires 1 <= size <= INT_MAX
      ensures Valid() && len == size && count == 0 && fresh(data)
      ensures forall i :: 0 <= i < size ==> Wanted(data[..], i, false)
    {
      AlignCeilIs(size);
      len := size;
      count := 0;
      nMasks := MaskLenToIdx(AlignCeil(size));
      data := new Word[MaskLenToIdx(AlignCeil(size))](i => 0);
      new;
      NoneMarked(data[..], len);
      hide Flag;
    }

    /**
     rte_fbarray_init. `mapped` says whether the file is there, locked and mapped; what the
     system reports if not is not looked at further.
     */
    static method Init(name: Name, size: nat, eltSz: nat, mapped: bool) returns (arr: FbArray?, err: Errno)
      ensures arr == null <==>
              name.Missing? || eltSz == 0 || size == 0 || size > INT_MAX || name.length >= NAME_LEN || !mapped
      ensures err == if arr != null then Untouched
                     else if name.Missing? || eltSz == 0 || size == 0 || size > INT_MAX then EINVAL
                     else if name.length >= NAME_LEN then ENAMETOOLONG else FromSystem
      ensures arr != null ==> fresh(arr) && arr.Valid() && arr.len == size && arr.count == 0
      ensures arr != null ==> forall i :: 0 <= i < size ==> Wanted(arr.data[..], i, false)
    {
      if name.Missing? || eltSz == 0 || size == 0 || size > INT_MAX {
        return null, EINVAL;
      }
      if name.length >= NAME_LEN {
        return null, ENAMETOOLONG;
      }
      if !mapped {
        return null, FromSystem;
      }
      arr := new FbArray(size);
      err := Untouched;
    }

    // -------------------------------------------------------------- changing entries

    /** Marks or unmarks an entry; the count follows, and no other entry changes. */
    method SetUsed(idx: nat, used: bool) returns (ret: int, err: Errno)
      requires Valid()
      modifies this`count, data
      ensures Valid()
      ensures ret == (if idx < len then 0 else -1) && err == if idx < len then Untouched else EINVAL
      ensures idx >= len ==> data[..] == old(data[..]) && count == old(count)
      ensures idx < len ==> forall i :: 0 <= i < 64 * nMasks ==>
                                          (Flag(data[..], i) <==> if i == idx then used else old(Flag(data[..], i)))
    {
      var mskBit := ShiftLeft(1, MaskLenToMod(idx));
      var mskIdx := MaskLenToIdx(idx);
      if idx >= len {
        return -1, EINVAL;
      }
      SplitIs(idx);
      ghost var was := data[..];
      var w := data[mskIdx];
      var alreadyUsed := And(w, mskBit) != 0;
      BitOps(w, MaskLenToMod(idx));
      FlagOf(was, mskIdx, MaskLenToMod(idx));
      hide Bit, And, Or, Not, ShiftLeft, Flag;
      if used == alreadyUsed {
        return 0, Untouched;
      }
      ghost var w': Word := if used then Or(w, mskBit) else And(w, Not(mskBit));
      ghost var next := was[mskIdx := w'];
      FlagSet(was, idx, w', used);
      OneChanged(was, next, idx, len);
      if used {
        data[mskIdx] := Or(w, mskBit);
        count := count + 1;
      } else {
        data[mskIdx] := And(w, Not(mskBit));
        count := count - 1;
      }
      assert data[..] == next;
      return 0, Untouched;
    }

    /** Whether an entry is in use, or -1. */
    method IsUsed(idx: nat) returns (ret: int, err: Errno)
      requires Valid()
      ensures idx >= len ==> ret == -1 && err == EINVAL
      ensures idx < len ==> ret == (if Wanted(data[..], idx, true) then 1 else 0) && err == Untouched
    {
      if idx >= len {
        return -1, EINVAL;
      }
      SplitIs(idx);
      BitOps(data[MaskLenToIdx(idx)], MaskLenToMod(idx));
      FlagOf(data[..], MaskLenToIdx(idx), MaskLenToMod(idx));
      hide Bit, And, ShiftLeft, Flag;
      ret := if And(data[MaskLenToIdx(idx)], ShiftLeft(1, MaskLenToMod(idx))) != 0 then 1 else 0;
      err := Untouched;
    }

    // -------------------------------------------------------------- the next entry

    /** Word idx, turned round for free entries, without what lies before start or after the end. */
    method MaskedWord(idx: nat, first: nat, firstMod: nat, used: bool) returns (cur: Word)
      requires Valid() && first <= idx < nMasks && firstMod < 64
      ensures Sees(cur, data[..], 64 * idx, Lo(idx, first, firstMod), Hi(idx, len), used)
    {
      cur := data[idx];
      if !used {
        cur := Not(cur);
      }
      if idx == MaskLenToIdx(len) {
        cur := And(cur, BelowMask(MaskLenToMod(len)));
      }
      if idx == first {
        cur := And(cur, FromMask(firstMod));
      }
      MaskWordSees(data[..], idx, first, firstMod, len, used);
    }

    /** The least entry at or after start in the wanted state, or -1 exactly if there is none. */
    method FindNext(start: nat, used: bool) returns (r: int, err: Errno)
      requires Valid() && start < len
      ensures NextFound(data[..], r, start, len, used)
      ensures err == if r == -1 then NotFound(used) else Untouched
    {
      hide Wanted, Ones, Flag, Sees, Ctz, NoneIn, Bit, Lo, Hi, Reached, MaskLenToIdx, MaskLenToMod;
      hide NoneBeyond;
      ghost var d := data[..];
      SplitIs(start);
      var first, firstMod := MaskLenToIdx(start), MaskLenToMod(start);
      NoneBelow(d, start, start, used);
      var idx := first;
      StartAt(first, start, len, nMasks);
      while idx < nMasks
        invariant first <= idx <= nMasks
        invariant NoneIn(d, start, Reached(idx, first, start, len), used)
      {
        var cur := MaskedWord(idx, first, firstMod, used);
        NextStep(cur, d, idx, first, firstMod, start, len, used);
        if cur == 0 {
          idx := idx + 1;
          continue;
        }
        return MaskGetIdx(idx, Ctz(cur)), Untouched;
      }
      return -1, NotFound(used);
    }

    // -------------------------------------------------------------- the run from an entry on

    /** Word idx for a run: what lies before start is shifted out. */
    method ShiftedWord(idx: nat, first: nat, firstMod: nat, used: bool) returns (cur: Word)
      requires Valid() && first <= idx < nMasks && firstMod < 64
      ensures Sees(cur, data[..], Lo(idx, first, firstMod), Lo(idx, first, firstMod), Hi(idx, len), used)
    {
      SplitIs(len);
      hide And, Not, BelowMask, Sees, Flag, ShiftRight;
      cur := data[idx];
      SeesAll(data[..], idx);
      if !used {
        cur := Not(cur);
      }
      if idx == MaskLenToIdx(len) {
        SeesBelow(cur, data[..], 64 * idx, 64 * idx, MaskLenToMod(len), used);
        cur := And(cur, BelowMask(MaskLenToMod(len)));
      }
      if idx == first {
        SeesShifted(cur, data[..], 64 * idx, Hi(idx, len), firstMod, used);
        cur := ShiftRight(cur, firstMod);
      }
    }

    /** How many entries from start on are in the wanted state: exactly the run, no more and no less. */
    method FindContig(start: nat, used: bool) returns (result: nat)
      requires Valid() && start < len
      ensures ContigFound(data[..], result, start, len, used)
    {
      ghost var d := data[..];
      SplitIs(start);
      var first, firstMod := MaskLenToIdx(start), MaskLenToMod(start);
      result := 0;
      hide Wanted, Ones, Flag, Sees, Ctz, Bit, Not, Lo, Hi, Reached, MaskLenToIdx, MaskLenToMod;
      var idx := first;
      StartAt(first, start, len, nMasks);
      hide RunAt;
      while idx < nMasks
        invariant first <= idx <= nMasks
        invariant start + result == Reached(idx, first, start, len) && RunAt(d, start, result, used)
      {
        var cur := ShiftedWord(idx, first, firstMod, used);
        ContigStep(cur, d, idx, first, firstMod, start, len, result, used);
        var needLen := MASK_ALIGN;
        if idx == first {
          needLen := needLen - firstMod;
        }
        var holes := Not(cur);
        if holes == 0 {
          idx, result := idx + 1, result + needLen;
          continue;
        }
        var runLen := Ctz(holes);
        if runLen < needLen {
          result := result + runLen;
          return;
        }
        idx, result := idx + 1, result + needLen;
      }
    }

    // -------------------------------------------------------------- a run of n entries

    /** The shift-and loop: the bits left are those where a run of times + 1 starts. */
    method ShiftAnds(w: Word, times: nat) returns (tmp: Word)
      ensures forall b :: 0 <= b < 64 ==> (Bit(tmp, b) <==> BitRun(w, b, times + 1))
      ensures times == 0 ==> tmp == w
    {
      hide Bit, And, Shr;
      tmp := w;
      var sIdx := 0;
      while sIdx < times
        invariant sIdx <= times && (sIdx == 0 ==> tmp == w)
        invariant forall b :: 0 <= b < 64 ==> (Bit(tmp, b) <==> BitRun(w, b, sIdx + 1))
      {
        ShiftAnd(w, tmp, sIdx + 1);
        tmp := And(tmp, Shr(tmp));
        sIdx := sIdx + 1;
      }
    }

    /** The first run of n inside a word, and else how long the run at its end is. */
    method SearchWord(cur: Word, n: nat) returns (inside: bool, runStart: nat, clz: nat)
      requires n < Powers.WORD
      ensures inside ==> BitRun(cur, runStart, RunLen(n)) && forall b: nat :: b < runStart ==>
              !BitRun(cur, b, RunLen(n))
      ensures !inside ==> forall b: nat :: !BitRun(cur, b, RunLen(n))
      ensures !inside ==> clz < RunLen(n) && clz <= 64 && BitRun(cur, 64 - clz, clz)
      ensures !inside ==> clz < 64 ==> !Bit(cur, 63 - clz)
    {
      hide Bit, Ctz, Clz, Not;
      inside, runStart := false, 0;
      clz := if Not(cur) == 0 then 64 else Clz(Not(cur));
      TailRun(cur);
      if n <= MASK_ALIGN {
        var tmp := ShiftAnds(cur, Powers.Sub32(n, 1));
        hide BitRun;
        if tmp != 0 {
          CtzIs(tmp);
          inside, runStart := true, Ctz(tmp);
          FirstRun(cur, tmp, RunLen(n));
          return;
        }
        TailShort(cur, tmp, clz, RunLen(n));
        NoRun(cur, tmp, RunLen(n));
      }
    }

    /** Word idx as find_next_n masks it: the entries that are wanted and let through. */
    method IgnoredWord(idx: nat, used: bool, ignore: Word, ghost q: Query) returns (cur: Word)
      requires Valid() && idx < nMasks && q.d == data[..] && q.len == len && q.used == used
      ensures Shows(cur, q, idx, ignore)
    {
      hide And, Or, Not, BelowMask, Flag, Shows, Shown, NoneBeyond, Ones;
      cur := data[idx];
      if !used {
        cur := Not(cur);
      }
      var ignoreMsk := ignore;
      if idx == MaskLenToIdx(len) {
        ignoreMsk := Or(ignoreMsk, BelowMask(MaskLenToMod(len)));
      }
      IgnoredIs(q, idx, ignore, cur, ignoreMsk);
      if ignoreMsk != 0 {
        cur := And(cur, ignoreMsk);
      }
    }

    /** Whether `want` entries from word `from` on are wanted; else in which word they stop, or that the words end. */
    method LookAhead(from: nat, want: nat, used: bool, ghost q: Query)
      returns (found: bool, lost: bool, at: nat, need: nat)
      requires Valid() && from <= nMasks && want >= 1 && q.d == data[..] && q.used == used
      ensures found ==> RunAt(q.d, 64 * from, want, used)
      ensures lost ==> !found && LostAt(q, from, want, at) && need == Need(want, from, at)
      ensures !found && !lost ==> RanOut(q, from, want)
    {
      hide Flag, Wanted, Ones, Bit, And, Not, BitRun, NoneBeyond;
      var left := want;
      found, lost, at, need := false, false, from, 0;
      RunNone(q.d, 64 * from, used);
      hide RunAt;
      while at < nMasks
        invariant from <= at <= nMasks && 1 <= left <= want && want - left == 64 * (at - from)
        invariant RunAt(q.d, 64 * from, want - left, used) && !found && !lost
      {
        var lookahead := data[at];
        if !used {
          lookahead := Not(lookahead);
        }
        need := if left < MASK_ALIGN then left else MASK_ALIGN;
        var tmp := ShiftAnds(lookahead, need - 1);
        Ahead(q, at, lookahead, tmp, need);
        if And(tmp, ShiftLeft(1, 0)) == 0 {
          lost := true;
          return;
        }
        RunJoin(q.d, 64 * from, want - left, need, used);
        left := left - need;
        if left == 0 {
          found := true;
          return;
        }
        at := at + 1;
      }
    }

    /** After a word without a run inside it: the run at its end goes on, or the next word and what to ignore there. */
    method GoOn(idx: nat, clz: nat, n: nat, used: bool, ghost q: Query) returns (found: bool, next: nat, ignore: Word)
      requires Valid() && idx < nMasks && clz < RunLen(n) && clz <= 64 && n < Powers.WORD
      requires q.d == data[..] && q.used == used && q.n == RunLen(n)
      ensures found ==> clz >= 1 && RunAt(q.d, 64 * (idx + 1), q.n - clz, used)
      ensures !found ==> idx < next <= nMasks && GoesOn(q, idx, clz, next, ignore)
    {
      hide Flag, Ones, NoneBeyond, RunAt, FromMask;
      found, next, ignore := false, idx + 1, 0;
      if clz == 0 {
        return;
      }
      var left := Powers.Sub32(n, clz);
      var lost, at, need;
      found, lost, at, need := LookAhead(idx + 1, left, used, q);
      if lost {
        // a shift by 64 is not defined in C: anything may be ignored then
        if need == MASK_ALIGN {
          ignore := *;
        } else {
          ignore := FromMask(need);
        }
        next := at + 1;
      }
    }

    /** The first run of n entries in the wanted state, as far as the loop sees it. */
    method FindNextN(start: nat, n: nat, used: bool) returns (r: int, err: Errno)
      requires Valid() && start < len && n < Powers.WORD
      ensures RunSearched(data[..], r, n, start, len, used)
      ensures err == if r == -1 then NotFound(used) else Untouched
    {
      hide Flag, Ones, NoneBeyond, FromMask, BitRun, MaskLenToIdx, MaskLenToMod, Finds, Shows, RunSearched, RunAt;
      ghost var q := Query(data[..], len, RunLen(n), used);
      var first := MaskLenToIdx(start);
      var ignoreMsk := FromMask(MaskLenToMod(start));
      ghost var ignore0 := ignoreMsk;
      var mskIdx := first;
      FirstWord(start, len, nMasks);
      while mskIdx < nMasks
        invariant mskIdx <= nMasks
        invariant forall a :: Finds(q, mskIdx, ignoreMsk, a) ==> Finds(q, first, ignore0, a)
      {
        var cur := IgnoredWord(mskIdx, used, ignoreMsk, q);
        var inside, runStart, clz := SearchWord(cur, n);
        if inside {
          StopInside(q, mskIdx, ignoreMsk, cur, runStart);
          SearchedIs(q.d, MaskGetIdx(mskIdx, runStart), n, start, len, used);
          return MaskGetIdx(mskIdx, runStart), Untouched;
        }
        var found, next, ignore := GoOn(mskIdx, clz, n, used, q);
        if found {
          runStart := MASK_ALIGN - clz;
          StopTail(q, mskIdx, ignoreMsk, cur, clz);
          SearchedIs(q.d, MaskGetIdx(mskIdx, runStart), n, start, len, used);
          return MaskGetIdx(mskIdx, runStart), Untouched;
        }
        StepOn(q, mskIdx, ignoreMsk, cur, clz, next, ignore);
        mskIdx, ignoreMsk := next, ignore;
      }
      FindsEnd(q, mskIdx, ignoreMsk);
      SearchedIs(q.d, -1, n, start, len, used);
      return -1, NotFound(used);
    }

    // -------------------------------------------------------------- what callers use

    method FindNextFree(start: nat) returns (r: int, err: Errno)
      requires Valid()
      ensures start >= len ==> r == -1 && err == EINVAL
      ensures start < len ==> NextFound(data[..], r, start, len, false)
      ensures start < len ==> err == if count == len then Exhausted(false) else if r == -1 then NotFound(false)
              else Untouched
    {
      if start >= len {
        return -1, EINVAL;
      }
      if len == count {
        NoneLeft(data[..], start, len, false);
        return -1, ENOSPC;
      }
      r, err := FindNext(start, false);
    }

    method FindNextUsed(start: nat) returns (r: int, err: Errno)
      requires Valid()
      ensures start >= len ==> r == -1 && err == EINVAL
      ensures start < len ==> NextFound(data[..], r, start, len, true)
      ensures start < len ==> err == if count == 0 then Exhausted(true) else if r == -1 then NotFound(true)
              else Untouched
    {
      if start >= len {
        return -1, EINVAL;
      }
      if count == 0 {
        NoneLeft(data[..], start, len, true);
        return -1, ENOENT;
      }
      r, err := FindNext(start, true);
    }

    /** The count alone answers -1 only when no run of n free entries exists anywhere. */
    method FindNextNFree(start: nat, n: nat) returns (r: int, err: Errno)
      requires Valid() && n < Powers.WORD
      ensures start >= len || n > len ==> r == -1 && err == EINVAL
      ensures start < len && n <= len ==> RunAnswer(data[..], r, n, start, len, false)
      ensures start < len && n <= len ==>
                err == if Few(data[..], n, len, false) then Exhausted(false) else if r == -1 then NotFound(false)
                  else Untouched
      ensures len - count < n ==> r == -1 && forall i :: 0 <= i && i + n <= len ==> !RunAt(data[..], i, n, false)
    {
      hide RunAt, RunSearched, Flag;
      if len - count < n {
        TooFew(data[..], n, len, false);
      }
      if start >= len || n > len {
        return -1, EINVAL;
      }
      if len == count || len - count < n {
        return -1, ENOSPC;
      }
      r, err := FindNextN(start, n, false);
    }

    method FindNextNUsed(start: nat, n: nat) returns (r: int, err: Errno)
      requires Valid() && n < Powers.WORD
      ensures start >= len || n > len ==> r == -1 && err == EINVAL
      ensures start < len && n <= len ==> RunAnswer(data[..], r, n, start, len, true)
      ensures start < len && n <= len ==>
                err == if Few(data[..], n, len, true) then Exhausted(true) else if r == -1 then NotFound(true)
                  else Untouched
      ensures count < n ==> r == -1 && forall i :: 0 <= i && i + n <= len ==> !RunAt(data[..], i, n, true)
    {
      hide RunAt, RunSearched, Flag;
      if count < n {
        TooFew(data[..], n, len, true);
      }
      if start >= len || n > len {
        return -1, EINVAL;
      }
      if count < n {
        return -1, ENOENT;
      }
      r, err := FindNextN(start, n, true);
    }

    /** The run of free entries from start on; -1 instead of 0 when no entry is free at all. */
    method FindContigFree(start: nat) returns (r: int, err: Errno)
      requires Valid()
      ensures start >= len ==> r == -1 && err == EINVAL
      ensures start < len && count == len ==> r == -1 && err == ENOSPC && NoneIn(data[..], 0, len, false)
      ensures start < len && count < len ==> ContigFound(data[..], r, start, len, false) && err == Untouched
    {
      if start >= len {
        return -1, EINVAL;
      }
      if len == count {
        NoneLeft(data[..], 0, len, false);
        return -1, ENOSPC;
      }
      if count == 0 {
        NoneLeft(data[..], start, len, true);
        return len - start, Untouched;
      }
      r := FindContig(start, false);
      err := Untouched;
    }

    method FindContigUsed(start: nat) returns (r: int, err: Errno)
      requires Valid()
      ensures start >= len ==> r == -1 && err == EINVAL
      ensures start < len ==> ContigFound(data[..], r, start, len, true) && err == Untouched
    {
      if start >= len {
        return -1, EINVAL;
      }
      r := FindContig(start, true);
      err := Untouched;
    }
  }

  /** What find_contig promises of its result: the run from start on, no more and no less. */
  ghost predicate ContigFound(d: seq<Word>, r: int, start: nat, len: nat, used: bool) {
    && r >= 0 && RunAt(d, start, r, used) && start + r <= len
    && (start + r < len ==> !Wanted(d, start + r, used))
  }

  /** One word of the search for the end of a run: the run goes through it, or ends at its first hole. */
  lemma ContigStep(cur: Word, d: seq<Word>, idx: nat, first: nat, firstMod: nat, start: nat, len: nat, result: nat,
                   used: bool)
    requires start == 64 * first + firstMod && firstMod < 64 && start < len <= 64 * |d| < len + 64 && first <= idx < |d|
    requires Sees(cur, d, Lo(idx, first, firstMod), Lo(idx, first, firstMod), Hi(idx, len), used)
    requires start + result == Reached(idx, first, start, len) && RunAt(d, start, result, used)
    ensures var need := if idx == first then 64 - firstMod else 64;
      if Not(cur) == 0 || Ctz(Not(cur)) >= need
      then start + result + need == Reached(idx + 1, first, start, len) && RunAt(d, start, result + need, used)
      else ContigFound(d, result + Ctz(Not(cur)), start, len, used)
  {
    var base, hi := Lo(idx, first, firstMod), Hi(idx, len);
    BoundsAt(idx, first, firstMod, start, len, |d|);
    NeedIs(idx, first, firstMod, len, |d|);
    hide Sees, Lo, Hi, Reached, Ctz, Not, Wanted, RunAt;
    if Not(cur) == 0 {
      FullSeen(cur, d, base, hi, used);
      RunJoin(d, start, result, 64, used);
      RunPart(d, start, result + 64, used);
    } else {
      HoleSeen(cur, d, base, hi, used);
      RunJoin(d, start, result, Ctz(Not(cur)), used);
      RunPart(d, start, result + Ctz(Not(cur)), used);
    }
  }

  lemma RunPart(d: seq<Word>, i: int, n: nat, used: bool)
    requires RunAt(d, i, n, used)
    ensures forall m: nat :: m <= n ==> RunAt(d, i, m, used)
  {
    hide Wanted;
  }

  lemma RunNone(d: seq<Word>, i: int, used: bool)
    ensures RunAt(d, i, 0, used)
  {
  }

  // ---------------------------------------------------------------- the words of find_next_n

  /** The bits of cur are the entries that are wanted and let through. */
  ghost predicate Shows(cur: Word, q: Query, idx: nat, ignore: Word) {
    forall b :: 0 <= b < 64 ==> (Bit(cur, b) <==> Shown(q, idx, ignore, b))
  }

  lemma IgnoredIs(q: Query, idx: nat, ignore: Word, cur: Word, msk: Word)
    requires idx < |q.d| && cur == if q.used then q.d[idx] else Not(q.d[idx])
    requires msk == if idx == MaskLenToIdx(q.len) then Or(ignore, BelowMask(MaskLenToMod(q.len))) else ignore
    requires q.len <= 64 * |q.d| < q.len + 64
    ensures Shows(if msk != 0 then And(cur, msk) else cur, q, idx, ignore)
  {
    hide And, Or, Not, Bit, BelowMask, Flag;
    SplitIs(q.len);
    SeesAll(q.d, idx);
    Masked(cur, msk);
    Joined(ignore, BelowMask(MaskLenToMod(q.len)));
    MaskIs(MaskLenToMod(q.len));
    ZeroIff(msk);
    hide Wanted, MaskLenToMod;
    assert idx == MaskLenToIdx(q.len) ==> Bit(msk, 0);
    forall b | 0 <= b < 64
      ensures Bit(cur, b) <==> Wanted(q.d, 64 * idx + b, q.used)
      ensures msk == 0 ==> ignore == 0
    {
    }
  }

  /** The words ahead are looked at unmasked. */
  lemma Ahead(q: Query, at: nat, lookahead: Word, tmp: Word, need: nat)
    requires at < |q.d| && lookahead == (if q.used then q.d[at] else Not(q.d[at])) && 1 <= need <= 64
    requires forall b :: 0 <= b < 64 ==> (Bit(tmp, b) <==> BitRun(lookahead, b, need))
    ensures And(tmp, ShiftLeft(1, 0)) != 0 <==> RunAt(q.d, 64 * at, need, q.used)
  {
    hide And, Not, Bit, ShiftLeft, Flag;
    SeesAll(q.d, at);
    BitOps(tmp, 0);
    hide Wanted, BitRun, RunAt;
    RunSeen(lookahead, q.d, 64 * at, 0, need, q.used);
  }

  lemma RunShows(cur: Word, q: Query, idx: nat, ignore: Word)
    requires Shows(cur, q, idx, ignore)
    ensures forall b: nat, n: nat :: BitRun(cur, b, n) <==> ShownRun(q, idx, ignore, b, n)
  {
    hide Bit, Shown;
    forall b: nat, n: nat
      ensures BitRun(cur, b, n) <==> ShownRun(q, idx, ignore, b, n)
    {
      if b + n <= 64 {
        assert forall t :: b <= t < b + n ==> (Bit(cur, t) <==> Shown(q, idx, ignore, t));
      }
    }
  }

  lemma StopInside(q: Query, idx: nat, ignore: Word, cur: Word, b: nat)
    requires idx < |q.d| && Shows(cur, q, idx, ignore) && BitRun(cur, b, q.n)
    requires forall a: nat :: a < b ==> !BitRun(cur, a, q.n)
    ensures Finds(q, idx, ignore, 64 * idx + b)
  {
    hide Shows, BitRun, ShownRun, Finds;
    RunShows(cur, q, idx, ignore);
    assert FirstShown(q, idx, ignore, b);
    FindsStop(q, idx, ignore, 64 * idx + b);
  }

  /** What the run at the end of the word is, and that there is none inside. */
  lemma TailShows(q: Query, idx: nat, ignore: Word, cur: Word, c: nat)
    requires Shows(cur, q, idx, ignore) && (forall b: nat :: !BitRun(cur, b, q.n))
    requires c <= 64 && BitRun(cur, 64 - c, c) && (c < 64 ==> !Bit(cur, 63 - c))
    ensures NoShown(q, idx, ignore) && Tail(q, idx, ignore, c)
  {
    hide BitRun, ShownRun, Shown, Bit;
    RunShows(cur, q, idx, ignore);
  }

  lemma StopTail(q: Query, idx: nat, ignore: Word, cur: Word, c: nat)
    requires idx < |q.d| && Shows(cur, q, idx, ignore) && (forall b: nat :: !BitRun(cur, b, q.n))
    requires 1 <= c <= 64 && c < q.n && BitRun(cur, 64 - c, c) && (c < 64 ==> !Bit(cur, 63 - c))
    requires RunAt(q.d, 64 * (idx + 1), q.n - c, q.used)
    ensures Finds(q, idx, ignore, 64 * idx + (64 - c))
  {
    hide Shows, BitRun, NoShown, Tail, Finds, RunAt, Bit;
    TailShows(q, idx, ignore, cur, c);
    assert Steps(q, idx, ignore, Stop(64 * (idx + 1) - c));
    FindsStop(q, idx, ignore, 64 * (idx + 1) - c);
  }

  lemma StepOn(q: Query, idx: nat, ignore: Word, cur: Word, c: nat, next: nat, ignore': Word)
    requires idx < |q.d| && idx < next && Shows(cur, q, idx, ignore) && (forall b: nat :: !BitRun(cur, b, q.n))
    requires c < q.n && c <= 64 && BitRun(cur, 64 - c, c) && (c < 64 ==> !Bit(cur, 63 - c))
    requires GoesOn(q, idx, c, next, ignore')
    ensures forall r :: Finds(q, next, ignore', r) ==> Finds(q, idx, ignore, r)
  {
    hide Shows, BitRun, NoShown, Tail, Finds, GoesOn, Bit;
    TailShows(q, idx, ignore, cur, c);
    assert Steps(q, idx, ignore, On(next, ignore'));
    FindsOn(q, idx, ignore, next, ignore');
  }

  /** The least bit left by the shift-and loop is the first run. */
  lemma FirstRun(cur: Word, tmp: Word, n: nat)
    requires forall b :: 0 <= b < 64 ==> (Bit(tmp, b) <==> BitRun(cur, b, n))
    requires tmp != 0
    ensures Ctz(tmp) < 64 && BitRun(cur, Ctz(tmp), n) && forall b: nat :: b < Ctz(tmp) ==> !BitRun(cur, b, n)
  {
    CtzIs(tmp);
    hide Bit, Ctz;
    assert BitRun(cur, Ctz(tmp), n);
  }

  lemma NoRun(cur: Word, tmp: Word, n: nat)
    requires forall b :: 0 <= b < 64 ==> (Bit(tmp, b) <==> BitRun(cur, b, n))
    requires tmp == 0 && n >= 1
    ensures forall b: nat :: !BitRun(cur, b, n)
  {
    ZeroIff(tmp);
    hide Bit;
    forall b: nat
      ensures !BitRun(cur, b, n)
    {
      if b < 64 {
        assert !Bit(tmp, b);
      }
    }
  }
}
