/** Powers of two, and unsigned words as numbers below a power of two. */
module Powers {

  ghost function Pow2(n: nat): nat {
    if n == 0 then 1 else 2 * Pow2(n - 1)
  }

  lemma MulInto(c: int, a: int, b: int)
    ensures c * (a * b) == (c * a) * b == a * (c * b)
  {
  }

  lemma {:induction false} Pow2Add(m: nat, n: nat)
    ensures Pow2(m + n) == Pow2(m) * Pow2(n)
  {
    if m > 0 {
      assert Pow2(m + n) == 2 * Pow2(m - 1 + n) && Pow2(m) == 2 * Pow2(m - 1);
      hide Pow2;
      Pow2Add(m - 1, n);
      MulInto(2, Pow2(m - 1), Pow2(n));
    } else {
      assert Pow2(m) == 1;
    }
  }

  lemma {:induction false} Pow2Mono(m: nat, n: nat)
    requires m <= n
    ensures 1 <= Pow2(m) <= Pow2(n)
  {
    if m < n {
      Pow2Mono(m, n - 1);
    } else if m > 0 {
      Pow2Mono(m - 1, n - 1);
    }
  }

  const WORD: nat := 0x1_0000_0000

  lemma WordIsPow2()
    ensures Pow2(32) == WORD
  {
    assert Pow2(8) == 256;
    Pow2Add(8, 8);
    Pow2Add(16, 16);
  }

  /** A uint32_t. */
  type Word32 = x: int | 0 <= x < WORD

  function Add32(a: int, b: int): Word32 { (a + b) % WORD }

  function Sub32(a: int, b: int): Word32 { (a - b) % WORD }

  /** The `&` of two unsigned numbers, bit by bit. */
  function BitAnd(x: nat, y: nat): nat {
    if x == 0 || y == 0 then 0
    else 2 * BitAnd(x / 2, y / 2) + (x % 2) * (y % 2)
  }

  lemma BitAndStep(x: nat, y: nat)
    ensures BitAnd(x, y) == 2 * BitAnd(x / 2, y / 2) + (x % 2) * (y % 2)
  {
  }

  /** Masking with 2^k - 1 is the remainder modulo 2^k. */
  lemma {:induction false} MaskIsMod(x: nat, k: nat)
    ensures Pow2(k) > 0 && BitAnd(x, Pow2(k) - 1) == x % Pow2(k)
  {
    if k > 0 {
      var p := Pow2(k - 1);
      assert Pow2(k) == 2 * p;
      hide Pow2, BitAnd;
      MaskIsMod(x / 2, k - 1);
      BitAndStep(x, 2 * p - 1);
      assert (2 * p - 1) / 2 == p - 1 && (2 * p - 1) % 2 == 1;
      HalfMod(x, p);
    }
  }

  lemma HalfMod(x: nat, p: nat)
    requires p > 0
    ensures x % (2 * p) == 2 * ((x / 2) % p) + x % 2
  {
    var q, r := (x / 2) / p, (x / 2) % p;
    assert x / 2 == q * p + r;
    MulInto(2, q, p);
    ModUnique(x, 2 * p, q, 2 * r + x % 2);
  }

  lemma MulDiff(a: int, b: int, m: int)
    ensures (a - b) * m == a * m - b * m
  {
  }

  lemma MulAtLeast(d: int, m: int)
    requires d >= 1 && m > 0
    ensures d * m >= m
  {
  }

  lemma ModUnique(x: int, m: int, q: int, r: int)
    requires 0 <= r < m && x == q * m + r
    ensures x % m == r && x / m == q
  {
    var q', r' := x / m, x % m;
    assert x == m * q' + r';
    MulDiff(q', q, m);
    MulDiff(q, q', m);
    if q' > q {
      MulAtLeast(q' - q, m);
    } else if q' < q {
      MulAtLeast(q - q', m);
    }
  }

  /** The program's power-of-two test accepts exactly zero and the powers of two. */
  lemma {:induction false} PowerOfTwoTest(x: nat)
    requires x > 0
    ensures BitAnd(x - 1, x) == 0 <==> exists k: nat :: Pow2(k) == x
  {
    BitAndStep(x - 1, x);
    if x == 1 {
      assert Pow2(0) == 1;
    } else if x % 2 == 0 {
      assert (x - 1) / 2 == x / 2 - 1;
      PowerOfTwoTest(x / 2);
      if k: nat :| Pow2(k) == x / 2 {
        assert Pow2(k + 1) == x;
      }
      if k: nat :| Pow2(k) == x {
        assert Pow2(k - 1) == x / 2;
      }
    } else {
      var h := x / 2;
      assert (x - 1) / 2 == h && x == 2 * h + 1;
      SelfAnd(h);
      forall k: nat
        ensures Pow2(k) != x
      {
        if k > 0 {
          assert Pow2(k) == 2 * Pow2(k - 1);
        }
      }
    }
  }

  lemma {:induction false} SelfAnd(x: nat)
    ensures BitAnd(x, x) == x
  {
    if x > 0 {
      SelfAnd(x / 2);
    }
  }

  lemma Pow2Of30()
    ensures Pow2(30) == 0x4000_0000
  {
    assert Pow2(10) == 1024;
    Pow2Add(10, 10);
    Pow2Add(20, 10);
  }

  lemma Quarter(n: Word32)
    ensures n / 2 / 2 == n / 4 && (n / 4) % 0x4000_0000 == n / 4 && 4 * (n / 4) == n - n % 4
  {
  }

  /** Clearing the two low bits of a word. */
  lemma ClearLowTwo(n: Word32)
    ensures BitAnd(n, WORD - 4) == n - n % 4
  {
    BitAndStep(n, WORD - 4);
    BitAndStep(n / 2, 0x7fff_fffe);
    MaskIsMod(n / 4, 30);
    Pow2Of30();
    Quarter(n);
    hide BitAnd, Pow2;
    var a := BitAnd(n / 2, 0x7fff_fffe);
    assert a == 2 * BitAnd(n / 4, 0x3fff_ffff) + 0 * (n / 2 % 2);
    assert BitAnd(n, WORD - 4) == 2 * a;
  }

  /** Two numbers less than `m` apart are congruent modulo `m` only if they are equal. */
  lemma ModApart(a: int, b: int, m: int)
    requires 0 <= a - b < m && a % m == b % m
    ensures a == b
  {
    var d := a / m - b / m;
    MulDiff(a / m, b / m, m);
    assert a - b == d * m;
    if d >= 1 {
      MulAtLeast(d, m);
    }
  }

  lemma ModAdd(q: int, m: int, r: int)
    requires m > 0
    ensures (q * m + r) % m == r % m
  {
    var q2, r2 := r / m, r % m;
    assert r == m * q2 + r2;
    MulDiff(q, -q2, m);
    ModUnique(q * m + r, m, q + q2, r2);
  }

  /** A power of two up to 2^32 divides the word size: reducing to a word first changes nothing. */
  lemma WordMod(x: int, k: nat)
    requires k <= 32
    ensures Pow2(k) > 0 && x % WORD % Pow2(k) == x % Pow2(k)
  {
    Pow2Mono(0, k);
    WordIsPow2();
    Pow2Add(32 - k, k);
    var m, c := Pow2(k), Pow2(32 - k);
    var q, r := x / WORD, x % WORD;
    assert x == WORD * q + r;
    MulAssoc(q, c, m);
    hide Pow2;
    ModAdd(q * c, m, r);
  }

  lemma MulAssoc(a: int, b: int, c: int)
    ensures a * (b * c) == (a * b) * c && (b * c) * a == (a * b) * c
  {
  }
}
