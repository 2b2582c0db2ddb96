/**
 What callers can rely on in find_next_n: that every search has an answer, when the answer is the
 one that find_next gives, and when the run that is found ends by the length of the array.
 */
module FbTheorems {
  import Powers
  import opened FbWords
  import opened FbMasks
  import opened FbSearch

  // ---------------------------------------------------------------- every search has an answer

  lemma LeastShown(q: Query, idx: nat, ignore: Word, b: nat) returns (a: nat)
    requires ShownRun(q, idx, ignore, b, q.n)
    ensures FirstShown(q, idx, ignore, a)
    decreases b
  {
    hide ShownRun;
    if c: nat :| c < b && ShownRun(q, idx, ignore, c, q.n) {
      a := LeastShown(q, idx, ignore, c);
    } else {
      a := b;
    }
  }

  lemma TailFrom(q: Query, idx: nat, ignore: Word, c: nat) returns (t: nat)
    requires c <= 64 && ShownRun(q, idx, ignore, 64 - c, c)
    ensures Tail(q, idx, ignore, t)
    decreases 64 - c
  {
    hide Shown;
    if c < 64 && Shown(q, idx, ignore, 63 - c) {
      t := TailFrom(q, idx, ignore, c + 1);
    } else {
      t := c;
    }
  }

  /** A run that does not go on is lost somewhere, or cut off. */
  lemma StopsAhead(q: Query, from: nat, want: nat, a: nat) returns (lost: bool, at: nat)
    requires from <= a <= |q.d| && 64 * (a - from) < want && RunAt(q.d, 64 * from, 64 * (a - from), q.used)
    requires !RunAt(q.d, 64 * from, want, q.used)
    ensures if lost then LostAt(q, from, want, at) else RanOut(q, from, want)
    decreases |q.d| - a
  {
    hide RunAt;
    lost, at := false, a;
    if a < |q.d| {
      if RunAt(q.d, 64 * a, Need(want, from, a), q.used) {
        RunJoin(q.d, 64 * from, 64 * (a - from), Need(want, from, a), q.used);
        lost, at := StopsAhead(q, from, want, a + 1);
      } else {
        lost := true;
      }
    }
  }

  lemma {:induction false} FindsSome(q: Query, idx: nat, ignore: Word) returns (r: int)
    requires q.n >= 1
    ensures Finds(q, idx, ignore, r)
    decreases |q.d| - idx
  {
    hide Finds, Shown, RunAt;
    if idx >= |q.d| {
      r := -1;
      FindsEnd(q, idx, ignore);
    } else if b: nat :| ShownRun(q, idx, ignore, b, q.n) {
      var a := LeastShown(q, idx, ignore, b);
      r := 64 * idx + a;
      FindsStop(q, idx, ignore, r);
    } else {
      var c := TailFrom(q, idx, ignore, 0);
      TailLess(q, idx, ignore, c);
      hide ShownRun, Tail;
      if c > 0 && RunAt(q.d, 64 * (idx + 1), q.n - c, q.used) {
        r := 64 * (idx + 1) - c;
        FindsStop(q, idx, ignore, r);
      } else {
        var next, g := NextAfter(q, idx, c);
        r := FindsSome(q, next, g);
        assert Steps(q, idx, ignore, On(next, g));
        FindsOn(q, idx, ignore, next, g);
      }
    }
  }

  /** A word without a run of n inside it ends in fewer than n. */
  lemma TailLess(q: Query, idx: nat, ignore: Word, c: nat)
    requires Tail(q, idx, ignore, c) && q.n >= 1 && forall b: nat :: !ShownRun(q, idx, ignore, b, q.n)
    ensures c < q.n
  {
    hide Shown;
    assert c >= q.n ==> ShownRun(q, idx, ignore, 64 - c, q.n);
  }

  lemma NextAfter(q: Query, idx: nat, c: nat) returns (next: nat, g: Word)
    requires idx < |q.d| && c < q.n && (c > 0 ==> !RunAt(q.d, 64 * (idx + 1), q.n - c, q.used))
    ensures next > idx && GoesOn(q, idx, c, next, g)
  {
    next, g := idx + 1, 0;
    if c > 0 {
      assert RunAt(q.d, 64 * (idx + 1), 0, q.used);
      hide RunAt, FromMask;
      var lost, at := StopsAhead(q, idx + 1, q.n - c, idx + 1);
      if lost {
        next := at + 1;
        g := if Need(q.n - c, idx + 1, at) < 64 then FromMask(Need(q.n - c, idx + 1, at)) else 0;
      }
    }
  }

  lemma HasAnswer(d: seq<Word>, n: nat, start: nat, len: nat, used: bool) returns (r: int)
    requires MaskFor(d, len) && start < len
    ensures RunAnswer(d, r, n, start, len, used)
  {
    hide Finds, RunSearched, NoneBeyond, FromMask;
    if Few(d, n, len, used) {
      r := -1;
    } else {
      r := FindsSome(Query(d, len, RunLen(n), used), MaskLenToIdx(start), FromMask(MaskLenToMod(start)));
      SearchedIs(d, r, n, start, len, used);
    }
  }

  // ---------------------------------------------------------------- for a run of up to 64 only one

  lemma TailOne(q: Query, idx: nat, ignore: Word, c: nat, c': nat)
    requires Tail(q, idx, ignore, c) && Tail(q, idx, ignore, c')
    ensures c == c'
  {
    hide Shown;
  }

  /** A run that is lost is lost in one word only, and the words do not end before it is. */
  lemma LostOnce(q: Query, from: nat, want: nat, a: nat, b: nat)
    requires LostAt(q, from, want, a)
    ensures LostAt(q, from, want, b) ==> a == b
    ensures !RanOut(q, from, want) && !RunAt(q.d, 64 * from, want, q.used)
  {
    if RunAt(q.d, 64 * from, want, q.used) {
      NotLost(q, from, want, a);
      assert false;
    }
    if LostAt(q, from, want, b) {
      if a < b {
        RunRest(q.d, 64 * from, 64 * (b - from), 64 * a, Need(want, from, a), q.used);
      } else if b < a {
        RunRest(q.d, 64 * from, 64 * (a - from), 64 * b, Need(want, from, b), q.used);
      }
    }
    if RanOut(q, from, want) {
      RunRest(q.d, 64 * from, 64 * (|q.d| - from), 64 * a, Need(want, from, a), q.used);
    }
    hide RunAt;
  }

  /** A run at the end of word idx is lost in word a, of which it needs all: the mask is a shift by 64. */
  ghost predicate ShiftsFar(q: Query, idx: nat, ignore: Word, a: nat) {
    exists c: nat :: Tail(q, idx, ignore, c) && 1 <= c < q.n && LostAt(q, idx + 1, q.n - c, a)
                     && Need(q.n - c, idx + 1, a) == 64
  }

  lemma OneWayOn(q: Query, idx: nat, c: nat, next: nat, g: Word, next': nat, g': Word)
    requires c < q.n && GoesOn(q, idx, c, next, g) && GoesOn(q, idx, c, next', g')
    ensures next == next'
    ensures g != g' ==> c >= 1 && next >= 1 && LostAt(q, idx + 1, q.n - c, next - 1)
                        && Need(q.n - c, idx + 1, next - 1) == 64
  {
    hide RanOut, FromMask;
    if c > 0 {
      if next > idx + 1 {
        LostOnce(q, idx + 1, q.n - c, next - 1, if next' > 0 then next' - 1 else 0);
      } else if next' > idx + 1 {
        LostOnce(q, idx + 1, q.n - c, next' - 1, 0);
      }
    }
    hide LostAt;
  }

  /** One round has one outcome, but for what is ignored after a shift by 64, which C leaves open. */
  lemma OneOutcome(q: Query, idx: nat, ignore: Word, o: Outcome, o': Outcome)
    requires q.n >= 1 && Steps(q, idx, ignore, o) && Steps(q, idx, ignore, o')
    ensures if o.On? then o'.On? && o'.idx == o.idx else o' == o
    ensures o == o' || (o.idx >= 1 && ShiftsFar(q, idx, ignore, o.idx - 1))
  {
    hide Shown, FromMask, RunAt, LostAt, Need;
    forall c: nat, c': nat | Tail(q, idx, ignore, c) && Tail(q, idx, ignore, c')
      ensures c == c'
    {
      TailOne(q, idx, ignore, c, c');
    }
    forall c: nat, next, g | 1 <= c < q.n && GoesOn(q, idx, c, next, g)
      ensures !RunAt(q.d, 64 * (idx + 1), q.n - c, q.used)
    {
      if RunAt(q.d, 64 * (idx + 1), q.n - c, q.used) {
        RunGoesThrough(q, idx, c);
      }
    }
    hide Tail, ShownRun, GoesOn;
    if o.On? && o'.On? {
      var c: nat :| Tail(q, idx, ignore, c) && c < q.n && GoesOn(q, idx, c, o.idx, o.ignore);
      OneWayOn(q, idx, c, o.idx, o.ignore, o'.idx, o'.ignore);
    }
  }

  lemma FindsAfter(q: Query, idx: nat, ignore: Word, o: Outcome, r: int)
    requires q.n >= 1 && idx < |q.d| && Steps(q, idx, ignore, o) && Finds(q, idx, ignore, r)
    requires o.On? && o.idx >= 1 ==> !ShiftsFar(q, idx, ignore, o.idx - 1)
    ensures if o.Stop? then r == o.r else Finds(q, o.idx, o.ignore, r)
  {
    var o' := Round(q, idx, ignore, r);
    hide Finds, Steps, ShiftsFar;
    OneOutcome(q, idx, ignore, o, o');
  }

  /** A run of up to 64 needs less than a word more. */
  lemma NeverFar(q: Query, idx: nat, ignore: Word, a: nat)
    requires q.n <= 64
    ensures !ShiftsFar(q, idx, ignore, a)
  {
    hide Tail, RunAt;
  }

  // ---------------------------------------------------------------- after a run that is lost

  /** A run at the end of word idx that is lost in word a, which it needs less than all of. */
  lemma GoesAfterLost(q: Query, idx: nat, ignore: Word, c: nat, a: nat, r: int)
    requires q.n >= 1 && idx < |q.d| && Finds(q, idx, ignore, r) && Tail(q, idx, ignore, c) && 1 <= c < q.n
    requires LostAt(q, idx + 1, q.n - c, a) && Need(q.n - c, idx + 1, a) < 64
    ensures 64 * idx <= r < 64 * idx + 64 ||
            (Need(q.n - c, idx + 1, a) > 0 && Finds(q, a + 1, FromMask(Need(q.n - c, idx + 1, a)), r))
  {
    hide Finds, Shown, FromMask, RunAt, Tail, LostAt, Need, ShownRun;
    if b: nat :| FirstShown(q, idx, ignore, b) {
      var o := Round(q, idx, ignore, r);
      OneOutcome(q, idx, ignore, Stop(64 * idx + b), o);
      StopsInWord(q, idx, ignore, o);
    } else {
      NothingShown(q, idx, ignore);
      AfterLostIs(q, idx, c, a);
      var g := FromMask(Need(q.n - c, idx + 1, a));
      assert Steps(q, idx, ignore, On(a + 1, g));
      NotFar(q, idx, ignore, c, a);
      FindsAfter(q, idx, ignore, On(a + 1, g), r);
    }
  }

  lemma NothingShown(q: Query, idx: nat, ignore: Word)
    requires forall b: nat :: !FirstShown(q, idx, ignore, b)
    ensures NoShown(q, idx, ignore)
  {
    hide ShownRun, FirstShown;
    forall b: nat
      ensures !ShownRun(q, idx, ignore, b, q.n)
    {
      if ShownRun(q, idx, ignore, b, q.n) {
        var a := LeastShown(q, idx, ignore, b);
      }
    }
  }

  lemma AfterLostIs(q: Query, idx: nat, c: nat, a: nat)
    requires 1 <= c < q.n && LostAt(q, idx + 1, q.n - c, a) && Need(q.n - c, idx + 1, a) < 64
    ensures a > idx && Need(q.n - c, idx + 1, a) > 0
    ensures GoesOn(q, idx, c, a + 1, FromMask(Need(q.n - c, idx + 1, a)))
  {
    hide RunAt, FromMask;
  }

  lemma NotFar(q: Query, idx: nat, ignore: Word, c: nat, a: nat)
    requires Tail(q, idx, ignore, c) && 1 <= c < q.n && Need(q.n - c, idx + 1, a) < 64
    ensures !ShiftsFar(q, idx, ignore, a)
  {
    hide Shown, LostAt, Need, Tail;
    if ShiftsFar(q, idx, ignore, a) {
      var c': nat :| Tail(q, idx, ignore, c') && 1 <= c' < q.n && LostAt(q, idx + 1, q.n - c', a)
        && Need(q.n - c', idx + 1, a) == 64;
      TailOne(q, idx, ignore, c, c');
    }
  }

  /**
   A stretch of g entries at e, too short and with no entry before it, that crosses into word
   `lost` and ends there, lacking `need` entries of that word. The search comes to it if neither
   of the two words before that of e ends in an entry.
   */
  ghost predicate LostStretch(d: seq<Word>, n: nat, start: nat, used: bool, e: nat, g: nat, lost: nat, need: nat) {
    && start <= e && g < n && RunAt(d, e, g, used) && !Wanted(d, e + g, used)
    && (e == start || (e > 0 && !Wanted(d, e - 1, used)))
    && EndsClear(d, MaskLenToIdx(start), e / 64, used)
    && lost == (e + g) / 64 && e / 64 < lost < |d| && need == n - (64 * lost - e) && need < 64
  }

  /** A run behind such a stretch that begins after what is ignored, and before which two words are clear. */
  ghost predicate Behind(d: seq<Word>, n: nat, len: nat, used: bool, lost: nat, need: nat, p: nat) {
    && lost + 1 <= p / 64 && (p / 64 == lost + 1 ==> need <= p % 64) && RunAt(d, p, n, used)
    && (p / 64 < MaskLenToIdx(len) || p + n <= len) && EndsClear(d, lost + 1, p / 64, used)
  }

  /**
   After a run that was lost the search goes on with the next word, of which it ignores as many
   entries as it still needed of the word before: a run behind them is not passed over.
   */
  lemma AfterLost(d: seq<Word>, r: int, n: nat, start: nat, len: nat, used: bool,
                  e: nat, g: nat, lost: nat, need: nat, p: nat)
    requires MaskFor(d, len) && start < len && n >= 1 && SearchGives(d, r, n, start, len, used)
    requires LostStretch(d, n, start, used, e, g, lost, need) && Behind(d, n, len, used, lost, need, p)
    ensures 0 <= r <= p
  {
    hide Finds, FromMask, NoneBeyond, MaskLenToMod, MaskLenToIdx, RunAt, EndsClear, Wanted;
    var q := Query(d, len, n, used);
    assert need < 64 && RunAt(d, p, n, used) && 64 * (lost + 1) <= p;
    hide Behind, LostStretch;
    ThroughStretch(q, start, r, e, g, lost, need);
    if r < 0 || 64 * lost <= r {
      BehindReached(q, lost, need, p);
      NotPassed(q, lost + 1, FromMask(need), p, r);
    }
  }

  /** The search ends before the word in which the stretch ends, or goes on behind it. */
  lemma ThroughStretch(q: Query, start: nat, r: int, e: nat, g: nat, lost: nat, need: nat)
    requires MaskFor(q.d, q.len) && start < q.len && q.n >= 1
    requires Finds(q, MaskLenToIdx(start), FromMask(MaskLenToMod(start)), r)
    requires LostStretch(q.d, q.n, start, q.used, e, g, lost, need)
    ensures 0 <= r < 64 * lost || Finds(q, lost + 1, FromMask(need), r)
  {
    hide Finds, FromMask, NoneBeyond, MaskLenToMod, RunAt, EndsClear, Wanted;
    var first, ignore := MaskLenToIdx(start), FromMask(MaskLenToMod(start));
    var word := e / 64;
    var c := 64 * (word + 1) - e;
    FirstWord(start, q.len, |q.d|);
    Arrives(q, first, ignore, word, r);
    if r < 64 * first || 64 * word <= r {
      StretchTail(q, start, e, g);
      StretchLost(q, e, g, lost, need);
      hide LostAt, Tail;
      GoesAfterLost(q, word, Carried(first, ignore, word), c, lost, r);
    }
  }

  lemma LastWord(len: nat, nMasks: nat)
    requires 1 <= len <= 64 * nMasks < len + 64
    ensures nMasks <= MaskLenToIdx(len) + 1
  {
  }

  /** The entries of the stretch in its first word are the run at the end of that word. */
  lemma StretchTail(q: Query, start: nat, e: nat, g: nat)
    requires MaskFor(q.d, q.len) && start < q.len && start <= e && RunAt(q.d, e, g, q.used)
    requires e == start || (e > 0 && !Wanted(q.d, e - 1, q.used))
    requires e / 64 < (e + g) / 64 < |q.d|
    ensures Tail(q, e / 64, Carried(MaskLenToIdx(start), FromMask(MaskLenToMod(start)), e / 64), 64 * (e / 64 + 1) - e)
  {
    var first, word := MaskLenToIdx(start), e / 64;
    var ignore := Carried(first, FromMask(MaskLenToMod(start)), word);
    var c := 64 * (word + 1) - e;
    LastWord(q.len, |q.d|);
    SplitIs(start);
    hide FromMask, NoneBeyond, MaskLenToMod;
    forall b | 0 <= b < 64
      ensures Visible(word, q.len, ignore, b) <==> 64 * word + b >= start
    {
      if word == first {
        StartVisible(start, q.len, b);
      } else {
        NothingIgnored(word, q.len, b);
      }
    }
    hide Visible, Wanted;
    forall t | 64 - c <= t < 64
      ensures Shown(q, word, ignore, t)
    {
      assert Wanted(q.d, 64 * word + t, q.used);
    }
  }

  lemma StretchLost(q: Query, e: nat, g: nat, lost: nat, need: nat)
    requires RunAt(q.d, e, g, q.used) && !Wanted(q.d, e + g, q.used) && g < q.n
    requires lost == (e + g) / 64 && e / 64 < lost < |q.d| && need == q.n - (64 * lost - e) && need < 64
    ensures var c := 64 * (e / 64 + 1) - e;
      1 <= c < q.n && LostAt(q, e / 64 + 1, q.n - c, lost) && Need(q.n - c, e / 64 + 1, lost) == need
  {
    var from := e / 64 + 1;
    RunRest(q.d, e, g, 64 * from, 64 * (lost - from), q.used);
    if RunAt(q.d, 64 * lost, need, q.used) {
      assert false;
    }
    hide RunAt, Wanted;
  }

  lemma BehindReached(q: Query, lost: nat, need: nat, p: nat)
    requires need < 64 && Behind(q.d, q.n, q.len, q.used, lost, need, p) && MaskFor(q.d, q.len)
    ensures Reachable(q, lost + 1, FromMask(need), p)
  {
    var word := p / 64;
    MaskIs(need);
    ZeroIff(FromMask(need));
    SplitIs(q.len);
    hide FromMask, RunAt, NoneBeyond, Wanted, EndsClear, Bit;
    var m := Carried(lost + 1, FromMask(need), word);
    forall b | p % 64 <= b < 64 && 64 * word + b < p + q.n
      ensures Visible(word, q.len, m, b)
    {
      if word == lost + 1 {
        assert Bit(FromMask(need), b);
      } else {
        NothingIgnored(word, q.len, b);
      }
    }
  }

  /** Words without an entry lead nowhere but on. */
  lemma {:induction false} SkipEmpty(q: Query, idx: nat, ignore: Word, j: nat, r: int)
    requires q.n >= 1 && idx <= j <= |q.d| && Finds(q, idx, ignore, r)
    requires forall i :: 64 * idx <= i < 64 * j ==> !Wanted(q.d, i, q.used)
    ensures Finds(q, j, Carried(idx, ignore, j), r)
    decreases j - idx
  {
    if idx < j {
      var o := Round(q, idx, ignore, r);
      hide Finds;
      NoTail(q, idx, ignore, o);
      forall b: nat
        ensures !ShownRun(q, idx, ignore, b, q.n)
      {
        assert !Shown(q, idx, ignore, b);
      }
      NoStop(q, idx, ignore, o);
      hide Steps, Wanted;
      SkipEmpty(q, idx + 1, 0, j, r);
    }
  }

  lemma NoStop(q: Query, idx: nat, ignore: Word, o: Outcome)
    requires Steps(q, idx, ignore, o) && q.n >= 1 && !Shown(q, idx, ignore, 63)
    requires forall b: nat :: !ShownRun(q, idx, ignore, b, q.n)
    ensures o == On(idx + 1, 0)
  {
    NoTail(q, idx, ignore, o);
    forall c: nat | Tail(q, idx, ignore, c)
      ensures c == 0
    {
      if c > 0 {
        TailEnds(q, idx, ignore, c);
      }
    }
    hide Shown, ShownRun, Tail;
  }

  /**
   A word that ends in a single entry, and a next word that begins without one: that next word is
   skipped, and the beginning of the one after it is ignored.
   */
  lemma LostStep(q: Query, idx: nat, ignore: Word, r: int)
    requires 2 <= q.n <= 64 && idx + 1 < |q.d| && Finds(q, idx, ignore, r)
    requires Visible(idx, q.len, ignore, 63) && Wanted(q.d, 64 * idx + 63, q.used)
    requires !Wanted(q.d, 64 * (idx + 1), q.used)
    requires forall i :: 64 * idx <= i < 64 * idx + 63 ==> !Wanted(q.d, i, q.used)
    ensures Finds(q, idx + 2, FromMask(q.n - 1), r)
  {
    hide Finds, FromMask, Visible;
    forall b: nat
      ensures !ShownRun(q, idx, ignore, b, q.n)
    {
      assert b < 63 ==> !Shown(q, idx, ignore, b);
    }
    assert Shown(q, idx, ignore, 63) && !Shown(q, idx, ignore, 62);
    assert Tail(q, idx, ignore, 1);
    assert !RunAt(q.d, 64 * (idx + 1), q.n - 1, q.used);
    hide Wanted, Shown;
    assert LostAt(q, idx + 1, q.n - 1, idx + 1);
    assert GoesOn(q, idx, 1, idx + 2, FromMask(q.n - 1));
    assert Steps(q, idx, ignore, On(idx + 2, FromMask(q.n - 1)));
    NeverFar(q, idx, ignore, idx + 1);
    FindsAfter(q, idx, ignore, On(idx + 2, FromMask(q.n - 1)), r);
  }

  // ---------------------------------------------------------------- arrays with given entries in use

  lemma {:induction false} WordWith(s: set<int>, k: nat) returns (w: Word)
    requires k <= 64
    ensures forall b :: 0 <= b < 64 ==> (Bit(w, b) <==> b < k && b in s)
  {
    if k == 0 {
      w := 0;
      ZeroIff(w);
    } else {
      hide Bit, Or, ShiftLeft;
      w := WordWith(s, k - 1);
      BitOps(w, k - 1);
      if k - 1 in s {
        w := Or(w, ShiftLeft(1, k - 1));
      }
    }
  }

  ghost predicate InWord(s: set<int>, idx: nat, b: int) { 64 * idx + b in s }

  lemma {:induction false} MaskWith(s: set<int>, k: nat) returns (d: seq<Word>)
    ensures |d| == k && forall i :: 0 <= i < 64 * k ==> (Flag(d, i) <==> i in s)
  {
    d := [];
    if k > 0 {
      var m := k - 1;
      var d0 := MaskWith(s, m);
      var w := WordWith((set b | 0 <= b < 64 && InWord(s, m, b)), 64);
      d := d0 + [w];
      hide Bit;
      forall i | 0 <= i < 64 * k
        ensures Flag(d, i) <==> i in s
      {
        if i < 64 * (k - 1) {
          assert Flag(d, i) <==> Flag(d0, i);
        } else {
          FlagOf(d, k - 1, i - 64 * (k - 1));
          assert InWord(s, k - 1, i - 64 * (k - 1)) <==> i in s;
        }
      }
    }
  }

  lemma ArrayWith(s: set<int>, len: nat) returns (d: seq<Word>)
    requires 1 <= len <= INT_MAX && forall i :: i in s ==> i < len
    ensures MaskFor(d, len) && |d| == (len + 63) / 64
    ensures forall i :: 0 <= i < 64 * |d| ==> (Wanted(d, i, false) <==> i !in s)
  {
    d := MaskWith(s, (len + 63) / 64);
    hide Flag;
  }

  ghost predicate Outside(lo: int, hi: int, i: int) { i < lo || hi <= i }

  /** An array whose free entries are those of [lo, hi) and all from p on. */
  lemma FreeArray(len: nat, lo: nat, hi: nat, p: nat) returns (d: seq<Word>)
    requires 1 <= len <= INT_MAX && lo <= hi <= p <= len
    ensures MaskFor(d, len) && |d| == (len + 63) / 64
    ensures forall i :: 0 <= i < 64 * |d| ==> (Wanted(d, i, false) <==> lo <= i < hi || p <= i)
    ensures len - Ones(d, len) == hi - lo + len - p
  {
    d := ArrayWith((set i | 0 <= i < p && Outside(lo, hi, i)), len);
    hide Wanted, NoneBeyond;
    FreeCount(d, len, lo, hi, p);
  }

  lemma {:induction false} FreeCount(d: seq<Word>, k: nat, lo: nat, hi: nat, p: nat)
    requires k <= 64 * |d| && lo <= hi <= p
    requires forall i :: 0 <= i < k ==> (Wanted(d, i, false) <==> lo <= i < hi || p <= i)
    ensures k - Ones(d, k) == (if k < lo then 0 else if k < hi then k - lo else hi - lo) + (if k < p then 0 else k - p)
  {
    hide Flag;
    if k > 0 {
      FreeCount(d, k - 1, lo, hi, p);
      assert Wanted(d, k - 1, false) <==> !Flag(d, k - 1);
    }
  }

  // ---------------------------------------------------------------- when find_next_n searches from start to the end

  /**
   From the last, partial word find_next_n gives the least run between start and the end exactly
   if no run begins in that word before start and, unless there is none at all from start on,
   one ends by the length.
   */
  lemma LastWordIsLeast(d: seq<Word>, r: int, q: int, n: nat, start: nat, len: nat, used: bool)
    requires MaskFor(d, len) && start < len && n >= 1 && InLastWord(start, len)
    requires RunSearched(d, r, n, start, len, used) && LeastRun(d, q, n, start, len, used)
    ensures r == q <==> NoRunIn(d, n, 64 * MaskLenToIdx(start), start, used)
                        && (NoRunIn(d, n, start, 64 * |d|, used) || !NoRunIn(d, n, start, len - n + 1, used))
    ensures r == -1 || r >= start <==> NoRunIn(d, n, 64 * MaskLenToIdx(start), start, used)
    ensures r == -1 || r + n <= len <==> NoRunIn(d, n, 64 * MaskLenToIdx(start), 64 * |d|, used)
                                         || !NoRunIn(d, n, 64 * MaskLenToIdx(start), len - n + 1, used)
  {
    NoRunAcross(d, n, used);
    hide RunAt, RunFound, Flag;
  }

  lemma OneEntry(d: seq<Word>, used: bool)
    ensures forall i :: RunAt(d, i, 1, used) <==> Wanted(d, i, used)
  {
    forall i
      ensures RunAt(d, i, 1, used) <==> Wanted(d, i, used)
    {
      if RunAt(d, i, 1, used) {
        assert Wanted(d, i, used);
      }
    }
  }

  lemma NextIsLeast(d: seq<Word>, r: int, lo: int, hi: int, used: bool)
    requires 0 <= lo <= hi
    ensures LeastRun(d, r, 1, lo, hi, used) <==>
            if r == -1 then NoneIn(d, lo, hi, used) else lo <= r < hi && Wanted(d, r, used) && NoneIn(d, lo, r, used)
  {
    OneEntry(d, used);
    hide RunAt, Wanted;
  }

  /**
   When a search for one entry gives what find_next gives: always from a word before the last;
   from the last, partial word exactly if that word has no such entry before start and, for free
   entries, start is not followed by used ones only.
   */
  lemma OneIsNext(d: seq<Word>, r: int, q: int, start: nat, len: nat, used: bool)
    requires MaskFor(d, len) && start < len
    requires RunSearched(d, r, 1, start, len, used) && NextFound(d, q, start, len, used)
    ensures !InLastWord(start, len) ==> r == q
    ensures InLastWord(start, len) ==>
              (r == q <==> NoneIn(d, 64 * MaskLenToIdx(start), start, used) && (used || !NoneIn(d, start, len, false)))
  {
    if InLastWord(start, len) {
      var lo := 64 * MaskLenToIdx(start);
      NextIsLeast(d, r, lo, 64 * |d|, used);
      hide Flag, RunFound, LeastRun, WordSearched;
      if !used {
        assert Wanted(d, len, false);
      }
      assert r != -1 ==> Wanted(d, r, used);
    } else {
      hide NoneIn, RunFound;
      NextIsOne(d, r, q, start, len, used);
    }
  }

  lemma NextIsOne(d: seq<Word>, r: int, q: int, start: nat, len: nat, used: bool)
    requires NextFound(d, r, start, len, used) && NextFound(d, q, start, len, used)
    ensures r == q
  {
    hide Wanted;
  }

  /** The same for the functions that callers use: they answer -1 at once when no entry is left at all. */
  lemma OneCallIsNext(d: seq<Word>, r: int, q: int, start: nat, len: nat, used: bool)
    requires MaskFor(d, len) && start < len
    requires RunAnswer(d, r, 1, start, len, used) && NextFound(d, q, start, len, used)
    ensures !InLastWord(start, len) ==> r == q
    ensures InLastWord(start, len) ==>
              (r == q <==> Few(d, 1, len, used) || (NoneIn(d, 64 * MaskLenToIdx(start), start, used)
                                                    && (used || !NoneIn(d, start, len, false))))
  {
    if Few(d, 1, len, used) {
      NoneLeft(d, start, len, used);
      hide Wanted, Ones;
    } else {
      hide RunSearched, NextFound, NoneIn;
      OneIsNext(d, r, q, start, len, used);
    }
  }

  /** From which start every array of len entries answers both calls alike. */
  ghost predicate AlwaysAlike(start: nat, len: nat, used: bool) {
    forall d, r, q :: MaskFor(d, len) && RunAnswer(d, r, 1, start, len, used) && NextFound(d, q, start, len, used) ==>
      r == q
  }

  /**
   That is any start before the last, partial word, and the beginning of that word for used
   entries; for free entries, it is that beginning only if there is no other word.
   */
  lemma AlwaysNext(start: nat, len: nat, used: bool)
    requires start < len <= INT_MAX
    ensures AlwaysAlike(start, len, used) <==> !InLastWord(start, len) || (start % 64 == 0 && (used || start == 0))
  {
    hide RunSearched, NextFound, NoneIn, NoneBeyond, Few;
    if !InLastWord(start, len) || (start % 64 == 0 && (used || start == 0)) {
      forall d, r, q | MaskFor(d, len) && RunAnswer(d, r, 1, start, len, used) && NextFound(d, q, start, len, used)
        ensures r == q
      {
        OneCallIsNext(d, r, q, start, len, used);
        if InLastWord(start, len) {
          FromTheBeginning(d, start, len, used);
        }
      }
    } else {
      var d, r := UnlikeCase(start, len, used);
      assert RunAnswer(d, r, 1, start, len, used) && NextFound(d, -1, start, len, used);
    }
  }

  lemma FromTheBeginning(d: seq<Word>, start: nat, len: nat, used: bool)
    requires MaskFor(d, len) && start < len && InLastWord(start, len) && start % 64 == 0 && (used || start == 0)
    ensures NoneIn(d, 64 * MaskLenToIdx(start), start, used)
    ensures Few(d, 1, len, used) || used || !NoneIn(d, start, len, false)
  {
    hide Flag, NoneBeyond;
    if !used && NoneIn(d, 0, len, false) {
      AllMarked(d, len);
    }
  }

  lemma {:induction false} AllMarked(d: seq<Word>, n: nat)
    requires n <= 64 * |d| && NoneIn(d, 0, n, false)
    ensures Ones(d, n) == n
  {
    hide Flag;
    if n > 0 {
      AllMarked(d, n - 1);
      assert !Wanted(d, n - 1, false);
    }
  }

  /** Arrays on which find_next finds nothing, but find_next_n something before start or beyond the end. */
  lemma UnlikeCase(start: nat, len: nat, used: bool) returns (d: seq<Word>, r: int)
    requires start < len <= INT_MAX && InLastWord(start, len) && !(start % 64 == 0 && (used || start == 0))
    ensures MaskFor(d, len) && RunAnswer(d, r, 1, start, len, used) && NextFound(d, -1, start, len, used)
    ensures r == if start % 64 == 0 then len else 64 * MaskLenToIdx(start)
    ensures r != -1 && !Few(d, 1, len, used)
  {
    var k := 64 * MaskLenToIdx(start);
    SplitIs(start);
    SplitIs(len);
    if used {
      d := ArrayWith({k}, len);
    } else {
      d := FreeArray(len, if start % 64 == 0 then 0 else k, if start % 64 == 0 then 1 else k + 1, len);
    }
    r := HasAnswer(d, 1, start, len, used);
    var want := if start % 64 == 0 then len else k;
    hide Flag, MaskLenToMod, SearchGives;
    assert forall i :: 0 <= i < 64 * |d| ==> (Wanted(d, i, true) <==> !Wanted(d, i, false));
    var some := if start % 64 == 0 then 0 else k;
    assert Wanted(d, some, used) && Wanted(d, want, used);
    OneEntry(d, used);
    RunCounts(d, some, 1, len, used);
    NextIsLeast(d, r, k, 64 * |d|, used);
    assert r != -1 ==> Wanted(d, r, used);
    hide Ones, RunAt;
  }

  /**
   Two calls that differ from find_next: on ten entries of which the second is in use the search
   for a used one from the fourth on finds the second; on 74 entries of which the last ten are in
   use the search for a free one from the 68th on finds one beyond the end.
   */
  lemma OneIsNotNext(d: seq<Word>, e: seq<Word>, r: int, s: int)
    requires d == [2] && e == [0, 0x3FF]
    requires RunAnswer(d, r, 1, 3, 10, true) && RunAnswer(e, s, 1, 67, 74, false)
    ensures MaskFor(d, 10) && r == 1 && NextFound(d, -1, 3, 10, true)
    ensures MaskFor(e, 74) && s == 74 && NextFound(e, -1, 67, 74, false) && Ones(e, 74) < 74
  {
    LowBits(d, e);
    hide Flag;
    assert Wanted(d, 1, true) && Wanted(e, 0, false) && Wanted(e, 74, false);
    RunCounts(d, 1, 1, 10, true);
    RunCounts(e, 0, 1, 74, false);
    NextIsLeast(d, r, 0, 64, true);
    NextIsLeast(e, s, 64, 128, false);
    hide Ones, RunAt;
  }

  lemma LowBits(d: seq<Word>, e: seq<Word>)
    requires d == [2] && e == [0, 0x3FF]
    ensures forall i :: 0 <= i < 64 ==> (Flag(d, i) <==> i == 1)
    ensures forall i :: 0 <= i < 128 ==> (Flag(e, i) <==> 64 <= i < 74)
  {
    forall i | 0 <= i < 64
      ensures Bit(2, i) <==> i == 1
      ensures Bit(0x3FF, i) <==> i < 10
    {
      assert Powers.Pow2(1) == 2 && Powers.Pow2(5) == 32 && Powers.Pow2(10) == 1024;
      BitOfPow2(1, i);
      BitsBelow(10, i);
    }
    ZeroIff(0);
    hide Bit;
  }

  // ---------------------------------------------------------------- where a run of free entries ends

  /**
   When find_next_n keeps to the array whatever it holds: if the mask has no unused bits; from the
   last, partial word if no run fits into a word, or if there is no other word and the run is a
   single entry or all of them; from an earlier word for a single entry, if no run fits at all, if
   all is asked for, or if only the last word follows and a run that reaches it ends by the length.
   */
  ghost predicate EndsInside(start: nat, len: nat, n: nat) {
    var last, m := MaskLenToIdx(len), MaskLenToMod(len);
    || m == 0
    || (if InLastWord(start, len) then n > 64 || (last == 0 && (n == 1 || n == len))
        else n == 1 || start + n > 64 * (last + 1) || (start == 0 && n == len)
             || (MaskLenToIdx(start) + 1 == last && n <= m + 1))
  }

  /** Every array answers with a run that ends by its length, or with -1. */
  ghost predicate AlwaysInside(start: nat, n: nat, len: nat, used: bool) {
    forall d, r :: MaskFor(d, len) && RunAnswer(d, r, n, start, len, used) ==> r == -1 || r + n <= len
  }

  /** A run of used entries always ends by the length; one of free entries exactly as `EndsInside` says. */
  lemma RangeIs(start: nat, n: nat, len: nat, used: bool)
    requires start < len <= INT_MAX && 1 <= n <= len
    ensures AlwaysInside(start, n, len, used) <==> used || EndsInside(start, len, n)
  {
    hide RunSearched, Few, EndsInside, NoneBeyond;
    if used || EndsInside(start, len, n) {
      forall d, r | MaskFor(d, len) && RunAnswer(d, r, n, start, len, used)
        ensures r == -1 || r + n <= len
      {
        if used {
          UsedInside(d, r, n, start, len);
        } else {
          FreeInside(d, r, n, start, len);
        }
      }
    } else {
      var d, r := Overrun(start, n, len);
    }
  }

  lemma UsedInside(d: seq<Word>, r: int, n: nat, start: nat, len: nat)
    requires MaskFor(d, len) && start < len && RunAnswer(d, r, n, start, len, true)
    ensures r == -1 || r + n <= len
  {
    hide SearchGives, RunAt, Few;
  }

  lemma FreeInside(d: seq<Word>, r: int, n: nat, start: nat, len: nat)
    requires MaskFor(d, len) && start < len && 1 <= n <= len && RunAnswer(d, r, n, start, len, false)
    requires EndsInside(start, len, n)
    ensures r == -1 || r + n <= len
  {
    hide RunSearched, Few, Clear, RunAt, NoneBeyond, MaskLenToMod, LeastRun, NextFound, SearchGives, Ones;
    SplitIs(len);
    FirstWord(start, len, |d|);
    if r != -1 {
      if n == len {
        AllFree(d, r, start, len);
      }
      RangeOf(d, r, n, start, len);
      if InLastWord(start, len) {
        if n == 1 && MaskLenToIdx(len) == 0 {
          OneInside(d, r, start, len);
        }
      } else if n > 1 && MaskLenToIdx(start) + 1 == MaskLenToIdx(len) && 0 < MaskLenToMod(len)
        && n <= MaskLenToMod(len) + 1 {
        NearEnd(d, r, n, start, len);
      }
    }
  }

  lemma IdxBelow(start: nat, len: nat)
    requires start < len
    ensures MaskLenToIdx(start) <= MaskLenToIdx(len)
  {
  }

  /** What a result says about itself. */
  lemma RangeOf(d: seq<Word>, r: int, n: nat, start: nat, len: nat)
    requires MaskFor(d, len) && start < len && RunAnswer(d, r, n, start, len, false) && r != -1
    ensures SearchGives(d, r, n, start, len, false) && n >= 1 && r + n <= 64 * |d|
    ensures if InLastWord(start, len) then 64 * MaskLenToIdx(start) <= r else start <= r && (n == 1 ==> r + n <= len)
    ensures MaskLenToMod(len) == 0 ==> r + n <= len
  {
    IdxBelow(start, len);
    hide SearchGives, RunAt, LeastRun, NoneIn, Clear, Few;
  }

  /** If all is asked for and the count does not speak against it, all is free. */
  lemma AllFree(d: seq<Word>, r: int, start: nat, len: nat)
    requires MaskFor(d, len) && start < len && RunAnswer(d, r, len, start, len, false) && r != -1
    ensures start == 0 || (InLastWord(start, len) && MaskLenToIdx(len) == 0) ==> r == 0
  {
    hide SearchGives, RunFound, NextFound, NoneBeyond, Flag;
    assert Ones(d, len) == 0;
    NoneLeft(d, 0, len, true);
    IdxBelow(0, len);
    hide Ones, RunAt;
    if start == 0 && !InLastWord(start, len) {
      assert Clear(d, 0, len, start, len, false);
    }
  }

  /** In an array of a single word that has a free entry. */
  lemma OneInside(d: seq<Word>, r: int, start: nat, len: nat)
    requires MaskFor(d, len) && start < len && MaskLenToIdx(len) == 0 && RunAnswer(d, r, 1, start, len, false)
    requires r != -1
    ensures r + 1 <= len
  {
    hide SearchGives, Flag, NoneBeyond, RunFound, NextFound, Clear;
    if NoneIn(d, 0, len, false) {
      AllMarked(d, len);
    }
    OneEntry(d, false);
    hide Ones, RunAt;
  }

  /** From the word before the last. */
  lemma NearEnd(d: seq<Word>, r: int, n: nat, start: nat, len: nat)
    requires MaskFor(d, len) && start < len && SearchGives(d, r, n, start, len, false) && r != -1
    requires 1 <= n <= MaskLenToMod(len) + 1 && MaskLenToMod(len) > 0 && MaskLenToIdx(start) + 1 == MaskLenToIdx(len)
    ensures r + n <= len
  {
    var q, s, ignore := Query(d, len, n, false), MaskLenToIdx(start), FromMask(MaskLenToMod(start));
    SplitIs(len);
    hide FromMask, NoneBeyond, MaskLenToMod, Wanted;
    var o := Round(q, s, ignore, r);
    if o.On? {
      OnlyNext(q, s, ignore, o);
      if o.idx == s + 1 {
        LastFrom(q, s + 1, r);
      }
    } else {
      StopsBy(q, s, ignore, r);
    }
  }

  lemma StopsBy(q: Query, idx: nat, ignore: Word, r: int)
    requires Steps(q, idx, ignore, Stop(r)) && q.n >= 1
    ensures r + q.n <= 64 * (idx + 1) + q.n - 1
  {
    hide Shown, NoShown, Tail, RunAt;
  }

  lemma OnlyNext(q: Query, idx: nat, ignore: Word, o: Outcome)
    requires Steps(q, idx, ignore, o) && o.On?
    ensures o.idx == idx + 1 ==> o.ignore == 0
  {
    hide NoShown, Tail, LostAt, RanOut;
  }

  /** A last word of which what lies beyond the length is hidden. */
  lemma LastFrom(q: Query, idx: nat, r: int)
    requires Finds(q, idx, 0, r) && |q.d| == idx + 1 && q.n >= 1 && idx == MaskLenToIdx(q.len)
    ensures r == -1 || r + q.n <= q.len
  {
    var o := Round(q, idx, 0, r);
    if o.Stop? {
      hide Finds;
      forall c: nat | Tail(q, idx, 0, c) && c < q.n
        ensures !RunAt(q.d, 64 * (idx + 1), q.n - c, q.used)
      {
        NoneAfter(q.d, q.n - c, q.used);
      }
      var b: nat :| r == 64 * idx + b && FirstShown(q, idx, 0, b);
      assert Shown(q, idx, 0, b + q.n - 1);
      NothingIgnored(idx, q.len, b + q.n - 1);
    }
  }

  lemma NoneAfter(d: seq<Word>, n: nat, used: bool)
    requires n >= 1
    ensures !RunAt(d, 64 * |d|, n, used)
  {
    assert !Wanted(d, 64 * |d|, used);
  }

  /** Otherwise there is an array with enough free entries whose one answer is a run beyond its length. */
  lemma Overrun(start: nat, n: nat, len: nat) returns (d: seq<Word>, r: int)
    requires start < len <= INT_MAX && 1 <= n <= len && !EndsInside(start, len, n)
    ensures MaskFor(d, len) && !Few(d, n, len, false) && RunAnswer(d, r, n, start, len, false) && r + n > len
    ensures forall a :: RunAnswer(d, a, n, start, len, false) ==> a == r
  {
    hide RunSearched, RunAnswer, Few, NoneBeyond, MaskLenToMod, Wanted, Ones;
    var k, p := 64 * MaskLenToIdx(len), len + 1 - n;
    SplitIs(len);
    SplitIs(start);
    if InLastWord(start, len) {
      p := if p < k then k else p;
      d := FreeArray(len, 0, if k == 0 then 1 else k, p);
    } else if start + n > len {
      p := start;
      d := FreeArray(len, 0, 0, 0);
    } else if n > len - k + 1 {
      d := FreeArray(len, 0, 1, p);
    } else {
      d := FreeArray(len, k - 65, k - 64, p);
    }
    NotFew(d, n, len);
    r := HasAnswer(d, n, start, len, false);
    forall a | RunAnswer(d, a, n, start, len, false)
      ensures a == p
    {
      if InLastWord(start, len) {
        InLastCase(d, a, n, start, len, p);
      } else if start + n > len {
        AtStartCase(d, a, n, start, len);
      } else if n > len - k + 1 {
        AcrossCase(d, a, n, start, len, p);
      } else {
        MaskedCase(d, a, n, start, len, p);
      }
    }
  }

  lemma NotFew(d: seq<Word>, n: nat, len: nat)
    requires len <= 64 * |d| && 1 <= n <= len - Ones(d, len)
    ensures !Few(d, n, len, false)
  {
    hide Ones;
  }

  /** The last word: its first run is the one at p. */
  lemma InLastCase(d: seq<Word>, r: int, n: nat, start: nat, len: nat, p: nat)
    requires MaskFor(d, len) && start < len && n >= 1 && InLastWord(start, len) && !Few(d, n, len, false)
    requires RunAnswer(d, r, n, start, len, false)
    requires var k := 64 * MaskLenToIdx(len);
      k <= p && p + n <= 64 * |d|
      && forall i :: k <= i < 64 * |d| ==> (Wanted(d, i, false) <==> (k == 0 && n >= 2 && i == 0 && p >= 2) || p <= i)
    ensures r == p
  {
    hide SearchGives, RunFound, NextFound, Few, NoneBeyond;
    assert RunAt(d, p, n, false);
    forall i | 64 * MaskLenToIdx(len) <= i < p
      ensures !RunAt(d, i, n, false)
    {
      assert !Wanted(d, i, false) || (i == 0 && !Wanted(d, i + 1, false));
    }
    hide RunAt, Wanted;
  }

  /** An empty array: the run at start. */
  lemma AtStartCase(d: seq<Word>, r: int, n: nat, start: nat, len: nat)
    requires MaskFor(d, len) && start < len && n >= 1 && !InLastWord(start, len) && !Few(d, n, len, false)
    requires RunAnswer(d, r, n, start, len, false) && start + n <= 64 * |d|
    requires forall i :: 0 <= i < 64 * |d| ==> Wanted(d, i, false)
    ensures r == start
  {
    hide SearchGives, NextFound, WordSearched, Few, NoneBeyond, Wanted;
    IdxBelow(start, len);
    assert Clear(d, start, n, start, len, false);
  }

  /** A run from an earlier word into the last one. */
  lemma AcrossCase(d: seq<Word>, r: int, n: nat, start: nat, len: nat, p: nat)
    requires MaskFor(d, len) && start < len && n >= 2 && !InLastWord(start, len) && !Few(d, n, len, false)
    requires RunAnswer(d, r, n, start, len, false) && start <= p && 2 <= p < 64 * MaskLenToIdx(len) && p + n <= 64 * |d|
    requires forall i :: 0 <= i < 64 * |d| ==> (Wanted(d, i, false) <==> i == 0 || p <= i)
    ensures r == p
  {
    hide SearchGives, NextFound, WordSearched, Few, NoneBeyond;
    assert RunAt(d, p, n, false);
    forall j: nat | MaskLenToIdx(start) <= j < MaskLenToIdx(p)
      ensures !Wanted(d, 64 * j + 63, false)
    {
    }
    assert Clear(d, p, n, start, len, false);
    assert Wanted(d, r, false) && Wanted(d, r + 1, false);
  }

  /** A run is lost in the word before the last: its mask and that for the end let all of the last word through. */
  lemma MaskedCase(d: seq<Word>, r: int, n: nat, start: nat, len: nat, p: nat)
    requires MaskFor(d, len) && start < len && !Few(d, n, len, false) && RunAnswer(d, r, n, start, len, false)
    requires MaskLenToIdx(start) + 1 < MaskLenToIdx(len) && 2 <= n <= MaskLenToMod(len) + 1
    requires var k := 64 * MaskLenToIdx(len);
      k <= p && p + n <= 64 * |d|
      && forall i :: 0 <= i < 64 * |d| ==> (Wanted(d, i, false) <==> i == k - 65 || p <= i)
    ensures r == p
  {
    var q, last, m := Query(d, len, n, false), MaskLenToIdx(len), n - 1;
    SplitIs(len);
    hide Finds, FromMask, Few, NoneBeyond, MaskLenToMod, Visible, RunFound, NextFound, Clear, WordSearched;
    MaskedSteps(q, start, r);
    forall b | 0 <= b < 64
      ensures Visible(last, len, FromMask(m), b)
    {
      AllVisible(len, m, b);
    }
    WholeWord(q, last, FromMask(m), r);
    assert RunAt(d, p, n, false);
    forall i | 64 * last <= i < p
      ensures !RunAt(d, i, n, false)
    {
      assert !Wanted(d, i, false);
    }
    hide RunAt, Wanted;
  }

  lemma MaskedSteps(q: Query, start: nat, r: int)
    requires MaskFor(q.d, q.len) && start < q.len && MaskLenToIdx(start) + 1 < MaskLenToIdx(q.len) && 2 <= q.n <= 64
    requires Finds(q, MaskLenToIdx(start), FromMask(MaskLenToMod(start)), r)
    requires var k := 64 * MaskLenToIdx(q.len);
      k <= 64 * |q.d| && forall i :: 0 <= i < k ==> (Wanted(q.d, i, q.used) <==> i == k - 65)
    requires |q.d| > MaskLenToIdx(q.len)
    ensures Finds(q, MaskLenToIdx(q.len), FromMask(q.n - 1), r)
  {
    hide Finds, FromMask, NoneBeyond, MaskLenToIdx, MaskLenToMod, Visible, Wanted;
    var last, s, ignore := MaskLenToIdx(q.len), MaskLenToIdx(start), FromMask(MaskLenToMod(start));
    SplitIs(start);
    StartVisible(start, q.len, 63);
    NothingIgnored(last - 2, q.len, 63);
    SkipEmpty(q, s, ignore, last - 2, r);
    LostStep(q, last - 2, Carried(s, ignore, last - 2), r);
  }

  lemma AllVisible(len: nat, m: nat, b: nat)
    requires m <= MaskLenToMod(len) && m < 64 && b < 64
    ensures Visible(MaskLenToIdx(len), len, FromMask(m), b)
  {
    MaskIs(m);
    hide Bit, FromMask;
  }

  /** In an empty array of 100 entries the call for 60 from entry 50 on gives 50, though only 50 are left. */
  lemma OverrunExample(d: seq<Word>, r: int)
    requires d == [0, 0] && RunAnswer(d, r, 60, 50, 100, false)
    ensures MaskFor(d, 100) && !Few(d, 60, 100, false) && r == 50
  {
    NoneMarked(d, 100);
    hide Flag, RunSearched;
    AtStartCase(d, r, 60, 50, 100);
  }

  // ---------------------------------------------------------------- runs that are passed over

  /** Free is only the last entry of the first word, and the second word but for its first entry. */
  ghost predicate InPattern(i: int) { i < 63 || i == 64 || i >= 128 }

  /** After a lost run the rest of the word looked ahead to is not searched: here for two free entries in a row. */
  lemma PassedOver() returns (d: seq<Word>)
    ensures MaskFor(d, 192) && !Few(d, 2, 192, false) && RunAt(d, 65, 2, false)
    ensures RunAnswer(d, -1, 2, 0, 192, false)
    ensures forall r :: RunAnswer(d, r, 2, 0, 192, false) ==> r == -1
  {
    d := ArrayWith((set i | 0 <= i < 192 && InPattern(i)), 192);
    assert RunAt(d, 65, 2, false);
    RunCounts(d, 65, 2, 192, false);
    var q := Query(d, 192, 2, false);
    StartVisible(0, 192, 63);
    hide Finds, FromMask, Flag, NoneBeyond, Visible, Ones;
    var a := HasAnswer(d, 2, 0, 192, false);
    forall r | RunAnswer(d, r, 2, 0, 192, false)
      ensures r == -1
    {
      LostStep(q, 0, FromMask(0), r);
      SkipEmpty(q, 2, FromMask(1), 3, r);
      FindsEnd(q, 3, 0);
    }
  }

  ghost predicate InTwoStretches(i: int) { 61 <= i < 128 || 192 <= i < 320 }

  /** A used run of 70 that needs more than one word, behind one that is lost: the first three entries are ignored. */
  lemma FarRun() returns (d: seq<Word>)
    ensures MaskFor(d, 320) && forall i :: 0 <= i < 320 ==> (Wanted(d, i, true) <==> InTwoStretches(i))
    ensures RunAt(d, 192, 70, true)
    ensures RunAnswer(d, 195, 70, 0, 320, true) && forall r :: RunAnswer(d, r, 70, 0, 320, true) ==> r == 195
  {
    d := ArrayWith((set i | 0 <= i < 320 && InTwoStretches(i)), 320);
    forall i | 0 <= i < 320
      ensures Wanted(d, i, true) <==> InTwoStretches(i)
    {
      assert Wanted(d, i, false) <==> !InTwoStretches(i);
    }
    assert RunAt(d, 195, 70, true);
    RunCounts(d, 195, 70, 320, true);
    hide Flag, NoneBeyond, Ones;
    forall r | RunAnswer(d, r, 70, 0, 320, true)
      ensures r == 195
    {
      FarRunOnly(d, r);
    }
    hide RunSearched;
    var a := HasAnswer(d, 70, 0, 320, true);
  }

  lemma FarRunOnly(d: seq<Word>, r: int)
    requires MaskFor(d, 320) && forall i :: 0 <= i < 320 ==> (Wanted(d, i, true) <==> InTwoStretches(i))
    requires SearchGives(d, r, 70, 0, 320, true) && (r == -1 || RunAt(d, r, 70, true))
    ensures r == 195
  {
    hide Finds, FromMask, NoneBeyond, Wanted;
    var q := Query(d, 320, 70, true);
    assert EndsClear(d, 0, 0, true) && EndsClear(d, 3, 3, true);
    assert LostStretch(d, 70, 0, true, 61, 67, 2, 3) && Behind(d, 70, 320, true, 2, 3, 195);
    hide LostStretch, Behind;
    AfterLost(d, r, 70, 0, 320, true, 61, 67, 2, 3, 195);
    ThroughStretch(q, 0, r, 61, 67, 2, 3);
    NotThere(d, r);
    BehindThree(q, r);
  }

  lemma NotThere(d: seq<Word>, r: int)
    requires forall i :: 0 <= i < 320 ==> (Wanted(d, i, true) <==> InTwoStretches(i))
    ensures 0 <= r < 128 ==> !RunAt(d, r, 70, true)
  {
    hide Wanted;
    if 0 <= r < 128 {
      assert !Wanted(d, if r < 61 then r else 128, true);
    }
  }

  lemma BehindThree(q: Query, r: int)
    requires q.len == 320 && q.n == 70 && Finds(q, 3, FromMask(3), r)
    ensures r == -1 || 195 <= r
  {
    MaskIs(3);
    ZeroIff(FromMask(3));
    hide Finds, FromMask, Bit;
    assert Bit(FromMask(3), 63);
    Sound(q, 3, FromMask(3), r, 195);
  }
}
