/**
 64-bit mask words: which bits the C expressions on them set, and the counts of trailing and
 leading zeroes. Words are numbers below 2^64, and every operator wraps round as it does in C.
 A shift by a variable amount is that many shifts by one.
 */
module FbWords {
  import opened Powers

  const WORD64: nat := 0x1_0000_0000_0000_0000

  type Word = x: int | 0 <= x < WORD64

  const ONES: Word := 0xFFFF_FFFF_FFFF_FFFF

  /** Bit i, counted from the least significant. */
  predicate Bit(w: nat, i: nat)
    decreases i
  {
    if i == 0 then w % 2 == 1 else Bit(w / 2, i - 1)
  }

  lemma WordIs()
    ensures Pow2(64) == WORD64
  {
    WordIsPow2();
    Pow2Add(32, 32);
  }

  /** w & v */
  function And(w: Word, v: Word): (r: Word)
    ensures r <= w
  {
    AndBelow(w, v);
    BitAnd(w, v)
  }

  lemma {:induction false} AndBelow(w: nat, v: nat)
    ensures BitAnd(w, v) <= w
  {
    BitAndStep(w, v);
    if w > 0 {
      AndBelow(w / 2, v / 2);
    }
  }

  function BitOr(x: nat, y: nat): nat
    decreases x + y
  {
    if x == 0 then y else if y == 0 then x else 2 * BitOr(x / 2, y / 2) + (if x % 2 == 1 || y % 2 == 1 then 1 else 0)
  }

  lemma {:induction false} OrBelow(w: nat, v: nat, k: nat)
    requires w < Pow2(k) && v < Pow2(k)
    ensures BitOr(w, v) < Pow2(k)
    decreases k
  {
    if k > 0 && w > 0 && v > 0 {
      OrBelow(w / 2, v / 2, k - 1);
    }
  }

  /** w | v */
  function Or(w: Word, v: Word): Word {
    WordIs();
    OrBelow(w, v, 64);
    BitOr(w, v)
  }

  /** ~w */
  function Not(w: Word): Word { WORD64 - 1 - w }

  /** w << 1 */
  function Shl(w: Word): Word { (2 * w) % WORD64 }

  /** w >> 1 */
  function Shr(w: Word): Word { w / 2 }

  /** w - 1 */
  function Less1(w: Word): Word { if w == 0 then ONES else w - 1 }

  /** w << m */
  function ShiftLeft(w: Word, m: nat): Word {
    if m == 0 then w else Shl(ShiftLeft(w, m - 1))
  }

  /** w >> m */
  function ShiftRight(w: Word, m: nat): Word {
    if m == 0 then w else Shr(ShiftRight(w, m - 1))
  }

  // ---------------------------------------------------------------- operators bit by bit

  lemma {:induction false} BitOfAnd(w: nat, v: nat, i: nat)
    ensures Bit(BitAnd(w, v), i) <==> Bit(w, i) && Bit(v, i)
    decreases i
  {
    BitAndStep(w, v);
    HalfPlus(BitAnd(w / 2, v / 2), (w % 2) * (v % 2));
    if i > 0 {
      BitOfAnd(w / 2, v / 2, i - 1);
    }
  }

  lemma HalfPlus(h: nat, b: int)
    requires b == 0 || b == 1
    ensures (2 * h + b) / 2 == h && (2 * h + b) % 2 == b
  {
  }

  lemma {:induction false} NoBitInZero(w: nat, i: nat)
    requires w == 0
    ensures !Bit(w, i)
    decreases i
  {
    if i > 0 {
      NoBitInZero(w / 2, i - 1);
    }
  }

  lemma {:induction false} BitOfOr(w: nat, v: nat, i: nat)
    ensures Bit(BitOr(w, v), i) <==> Bit(w, i) || Bit(v, i)
    decreases i
  {
    if w == 0 {
      NoBitInZero(w, i);
    } else if v == 0 {
      NoBitInZero(v, i);
    } else {
      var b := if w % 2 == 1 || v % 2 == 1 then 1 else 0;
      var h := BitOr(w / 2, v / 2);
      assert BitOr(w, v) == 2 * h + b;
      HalfPlus(h, b);
      if i > 0 {
        BitOfOr(w / 2, v / 2, i - 1);
      }
      hide BitOr;
    }
  }

  lemma {:induction false} BitOfNot(w: nat, k: nat, i: nat)
    requires w < Pow2(k) && i < k
    ensures Bit(Pow2(k) - 1 - w, i) <==> !Bit(w, i)
    decreases i
  {
    var p := Pow2(k - 1);
    assert (2 * p - 1 - w) / 2 == p - 1 - w / 2 && (2 * p - 1 - w) % 2 == 1 - w % 2;
    if i > 0 {
      BitOfNot(w / 2, k - 1, i - 1);
    }
  }

  lemma {:induction false} BitAbove(w: nat, k: nat, i: nat)
    requires w < Pow2(k) && k <= i
    ensures !Bit(w, i)
    decreases i
  {
    if k == 0 {
      NoBitInZero(w, i);
    } else {
      BitAbove(w / 2, k - 1, i - 1);
    }
  }

  /** The bits of w >> m. */
  lemma {:induction false} BitOfShiftRight(w: Word, m: nat, i: nat)
    ensures Bit(ShiftRight(w, m), i) <==> Bit(w, i + m)
    decreases m
  {
    if m > 0 {
      BitOfShiftRight(w, m - 1, i + 1);
    }
  }

  lemma {:induction false} OneIs(m: nat)
    requires m < 64
    ensures ShiftLeft(1, m) == Pow2(m)
  {
    WordIs();
    if m > 0 {
      OneIs(m - 1);
      Pow2Mono(m, 63);
      assert Pow2(64) == 2 * Pow2(63);
      hide Pow2;
    }
  }

  lemma {:induction false} BitOfPow2(m: nat, i: nat)
    ensures Bit(Pow2(m), i) <==> i == m
    decreases i
  {
    if m == 0 {
      if i > 0 {
        NoBitInZero(0, i - 1);
      }
    } else if i > 0 {
      BitOfPow2(m - 1, i - 1);
    }
  }

  lemma {:induction false} BitsBelow(m: nat, i: nat)
    ensures Pow2(m) >= 1 && (Bit(Pow2(m) - 1, i) <==> i < m)
    decreases i
  {
    Pow2Mono(0, m);
    if m == 0 {
      NoBitInZero(Pow2(m) - 1, i);
    } else {
      Pow2Mono(0, m - 1);
      assert (2 * Pow2(m - 1) - 1) / 2 == Pow2(m - 1) - 1;
      if i > 0 {
        BitsBelow(m - 1, i - 1);
      }
    }
  }

  /** A word without a bit in it is zero. */
  lemma {:induction false} NoBits(w: nat, k: nat)
    requires w < Pow2(k) && forall i :: 0 <= i < k ==> !Bit(w, i)
    ensures w == 0
  {
    if k > 0 {
      assert !Bit(w, 0);
      forall i | 0 <= i < k - 1
        ensures !Bit(w / 2, i)
      {
        assert !Bit(w, i + 1);
      }
      NoBits(w / 2, k - 1);
    }
  }

  lemma ZeroIff(w: Word)
    ensures w == 0 ==> forall i :: 0 <= i < 64 ==> !Bit(w, i)
    ensures (forall i :: 0 <= i < 64 ==> !Bit(w, i)) ==> w == 0
  {
    WordIs();
    hide Pow2;
    if w == 0 {
      forall i | 0 <= i < 64
        ensures !Bit(w, i)
      {
        NoBitInZero(w, i);
      }
    } else if forall i :: 0 <= i < 64 ==> !Bit(w, i) {
      NoBits(w, 64);
    }
  }

  lemma {:induction false} OnesShifted(m: nat)
    requires m < 64
    ensures ShiftLeft(ONES, m) == WORD64 - Pow2(m)
  {
    WordIs();
    Pow2Mono(m, 63);
    if m > 0 {
      OnesShifted(m - 1);
      var p := Pow2(m - 1);
      assert Pow2(64) == 2 * Pow2(63) && Pow2(m) == 2 * p;
      hide Pow2;
      assert (2 * (WORD64 - p)) % WORD64 == WORD64 - 2 * p;
    } else {
      assert Pow2(0) == 1;
    }
  }

  // ---------------------------------------------------------------- the masks of the searches

  /** ~((1ULL << m) - 1) */
  function FromMask(m: nat): Word { Not(Less1(ShiftLeft(1, m))) }

  /** ~(-1ULL << m) */
  function BelowMask(m: nat): Word { Not(ShiftLeft(ONES, m)) }

  lemma BitOfMask(m: nat, i: nat)
    requires m < 64 && i < 64
    ensures Bit(FromMask(m), i) <==> i >= m
    ensures Bit(BelowMask(m), i) <==> i < m
  {
    OneIs(m);
    OnesShifted(m);
    WordIs();
    Pow2Mono(m, 64);
    BitsBelow(m, i);
    hide Pow2, ShiftLeft, Bit;
    BitOfNot(Pow2(m) - 1, 64, i);
  }

  // ---------------------------------------------------------------- counting zeroes

  /** __builtin_ctzll(w), by a search upwards from bit 0; 64 if there is no bit. */
  function Ctz(w: Word): (n: nat)
    ensures n <= 64
  {
    CtzFrom(w, 0)
  }

  function CtzFrom(w: Word, n: nat): (r: nat)
    requires n <= 64
    ensures n <= r <= 64
    decreases 64 - n
  {
    if n == 64 || Bit(w, n) then n else CtzFrom(w, n + 1)
  }

  lemma {:induction false} CtzFromIs(w: Word, n: nat)
    requires n <= 64
    ensures CtzFrom(w, n) < 64 ==> Bit(w, CtzFrom(w, n))
    ensures forall i :: n <= i < CtzFrom(w, n) ==> !Bit(w, i)
    decreases 64 - n
  {
    hide Bit;
    if n < 64 && !Bit(w, n) {
      CtzFromIs(w, n + 1);
    }
  }

  /** The count of trailing zeroes of a word that is not zero is its least set bit. */
  lemma CtzIs(w: Word)
    requires w != 0
    ensures Ctz(w) < 64 && Bit(w, Ctz(w)) && forall i :: 0 <= i < Ctz(w) ==> !Bit(w, i)
  {
    hide Bit, CtzFrom;
    CtzFromIs(w, 0);
    ZeroIff(w);
  }

  /** __builtin_clzll(w), by a search downwards from bit 63; 64 if there is no bit. */
  function Clz(w: Word): (n: nat)
    ensures n <= 64
  {
    ClzFrom(w, 0)
  }

  function ClzFrom(w: Word, n: nat): (r: nat)
    requires n <= 64
    ensures n <= r <= 64
    decreases 64 - n
  {
    if n == 64 || Bit(w, 63 - n) then n else ClzFrom(w, n + 1)
  }

  lemma {:induction false} ClzFromIs(w: Word, n: nat)
    requires n <= 64
    ensures ClzFrom(w, n) < 64 ==> Bit(w, 63 - ClzFrom(w, n))
    ensures forall i :: 64 - ClzFrom(w, n) <= i < 64 - n ==> !Bit(w, i)
    decreases 64 - n
  {
    hide Bit;
    if n < 64 && !Bit(w, 63 - n) {
      ClzFromIs(w, n + 1);
    }
  }

  /** The count of leading zeroes of a word that is not zero leaves its greatest set bit. */
  lemma ClzIs(w: Word)
    requires w != 0
    ensures Clz(w) < 64 && Bit(w, 63 - Clz(w)) && forall i :: 64 - Clz(w) <= i < 64 ==> !Bit(w, i)
  {
    hide Bit, ClzFrom;
    ClzFromIs(w, 0);
    ZeroIff(w);
  }
}
