/**
 What find_next_n looks at, entry by entry: of each word the entries that its mask lets through,
 the first run among them, else the run at the end of the word and where looking ahead leads.
 From this follow what a result is, and which runs are never passed over.
 */
module FbSearch {
  import Powers
  import opened FbWords
  import opened FbMasks

  const INT_MAX: nat := 0x7fff_ffff

  /** The mask words of an array of len entries. */
  ghost predicate MaskFor(d: seq<Word>, len: nat) {
    1 <= len <= INT_MAX && len <= 64 * |d| < len + 64 && NoneBeyond(d, len)
  }

  /** The start lies in the last word, which the array fills only in part. */
  ghost predicate InLastWord(start: nat, len: nat) { MaskLenToIdx(start) == MaskLenToIdx(len) }

  /** How long a run the 32-bit arithmetic of find_next_n looks for: n - 1 wraps when n is 0. */
  ghost function RunLen(n: nat): nat { if n == 0 then Powers.WORD else n }

  /** A search for a run of n. */
  datatype Query = Query(d: seq<Word>, len: nat, n: nat, used: bool)

  // ---------------------------------------------------------------- one word

  /** What the mask lets through of word idx; a mask of zero only hides what lies beyond the length. */
  ghost predicate Visible(idx: nat, len: nat, ignore: Word, b: nat) {
    if idx == MaskLenToIdx(len) then Bit(ignore, b) || b < MaskLenToMod(len)
    else ignore == 0 || Bit(ignore, b)
  }

  ghost predicate Shown(q: Query, idx: nat, ignore: Word, b: int) {
    0 <= b < 64 && Wanted(q.d, 64 * idx + b, q.used) && Visible(idx, q.len, ignore, b)
  }

  ghost predicate ShownRun(q: Query, idx: nat, ignore: Word, b: nat, n: nat) {
    b + n <= 64 && forall t :: b <= t < b + n ==> Shown(q, idx, ignore, t)
  }

  ghost predicate NoShown(q: Query, idx: nat, ignore: Word) {
    forall b: nat :: !ShownRun(q, idx, ignore, b, q.n)
  }

  /** The first run inside the word. */
  ghost predicate FirstShown(q: Query, idx: nat, ignore: Word, b: nat) {
    ShownRun(q, idx, ignore, b, q.n) && forall a: nat :: a < b ==> !ShownRun(q, idx, ignore, a, q.n)
  }

  /** The word ends in a run of c, and no more. */
  ghost predicate Tail(q: Query, idx: nat, ignore: Word, c: nat) {
    c <= 64 && ShownRun(q, idx, ignore, 64 - c, c) && (c < 64 ==> !Shown(q, idx, ignore, 63 - c))
  }

  // ---------------------------------------------------------------- looking ahead

  /** How many entries of word a a run of `want` from word `from` on still needs. */
  ghost function Need(want: nat, from: nat, a: nat): int {
    if want - 64 * (a - from) < 64 then want - 64 * (a - from) else 64
  }

  /** The run is lost in word a. */
  ghost predicate LostAt(q: Query, from: nat, want: nat, a: nat) {
    && from <= a < |q.d| && 64 * (a - from) < want && RunAt(q.d, 64 * from, 64 * (a - from), q.used)
    && !RunAt(q.d, 64 * a, Need(want, from, a), q.used)
  }

  /** The words end before the run is as long as it should be. */
  ghost predicate RanOut(q: Query, from: nat, want: nat) {
    from <= |q.d| && 64 * (|q.d| - from) < want && RunAt(q.d, 64 * from, 64 * (|q.d| - from), q.used)
  }

  /** Where the search goes on when the run of c at the end of word idx comes to nothing, and what it then ignores. */
  ghost predicate GoesOn(q: Query, idx: nat, c: nat, next: nat, ignore: Word)
    requires c < q.n
  {
    if c == 0 then next == idx + 1 && ignore == 0
    else if next > idx + 1 && LostAt(q, idx + 1, q.n - c, next - 1) then
      Need(q.n - c, idx + 1, next - 1) < 64 ==> ignore == FromMask(Need(q.n - c, idx + 1, next - 1))
    else RanOut(q, idx + 1, q.n - c) && next == idx + 1 && ignore == 0
  }

  // ---------------------------------------------------------------- the search

  datatype Outcome = Stop(r: int) | On(idx: nat, ignore: Word)

  /** One round of the loop. */
  ghost predicate Steps(q: Query, idx: nat, ignore: Word, o: Outcome) {
    match o
    case Stop(r) =>
      || (exists b: nat :: r == 64 * idx + b && FirstShown(q, idx, ignore, b))
      || (NoShown(q, idx, ignore) && exists c: nat ::
            Tail(q, idx, ignore, c) && 1 <= c < q.n && r == 64 * (idx + 1) - c
            && RunAt(q.d, 64 * (idx + 1), q.n - c, q.used))
    case On(next, ignore') =>
      NoShown(q, idx, ignore) && exists c: nat ::
        Tail(q, idx, ignore, c) && c < q.n && GoesOn(q, idx, c, next, ignore')
  }

  /** r is an answer of the loop when it comes to word idx with this mask. */
  ghost predicate Finds(q: Query, idx: nat, ignore: Word, r: int)
    decreases |q.d| - idx
  {
    if idx >= |q.d| then r == -1
    else exists o :: Steps(q, idx, ignore, o)
                     && (o.Stop? ==> r == o.r) && (o.On? ==> idx < o.idx && Finds(q, o.idx, o.ignore, r))
  }

  /** r is an answer of find_next_n. */
  ghost predicate SearchGives(d: seq<Word>, r: int, n: nat, start: nat, len: nat, used: bool) {
    Finds(Query(d, len, RunLen(n), used), MaskLenToIdx(start), FromMask(MaskLenToMod(start)), r)
  }

  /** The round in which an answer lies, or that leads to it. */
  lemma Round(q: Query, idx: nat, ignore: Word, r: int) returns (o: Outcome)
    requires idx < |q.d| && Finds(q, idx, ignore, r)
    ensures Steps(q, idx, ignore, o) && if o.Stop? then r == o.r else idx < o.idx && Finds(q, o.idx, o.ignore, r)
  {
    hide Steps;
    o :| Steps(q, idx, ignore, o) && (o.Stop? ==> r == o.r) && (o.On? ==> idx < o.idx && Finds(q, o.idx, o.ignore, r));
  }

  lemma FindsStop(q: Query, idx: nat, ignore: Word, r: int)
    requires idx < |q.d| && Steps(q, idx, ignore, Stop(r))
    ensures Finds(q, idx, ignore, r)
  {
    hide Steps;
  }

  lemma FindsOn(q: Query, idx: nat, ignore: Word, next: nat, ignore': Word)
    requires idx < |q.d| && idx < next && Steps(q, idx, ignore, On(next, ignore'))
    ensures forall r :: Finds(q, next, ignore', r) ==> Finds(q, idx, ignore, r)
  {
    hide Steps;
    forall r | Finds(q, next, ignore', r)
      ensures Finds(q, idx, ignore, r)
    {
      assert On(next, ignore').On?;
    }
  }

  lemma FindsEnd(q: Query, idx: nat, ignore: Word)
    requires idx >= |q.d|
    ensures forall r :: Finds(q, idx, ignore, r) <==> r == -1
  {
  }

  // ---------------------------------------------------------------- what the masks let through

  /** The mask that a search from `start` begins with: from start on, or all of the last, partial word. */
  lemma StartVisible(start: nat, len: nat, b: nat)
    requires start < len && b < 64
    ensures Visible(MaskLenToIdx(start), len, FromMask(MaskLenToMod(start)), b)
            <==> InLastWord(start, len) || 64 * MaskLenToIdx(start) + b >= start
  {
    SplitIs(start);
    SplitIs(len);
    MaskIs(MaskLenToMod(start));
    ZeroIff(FromMask(MaskLenToMod(start)));
    assert Bit(FromMask(MaskLenToMod(start)), 63);
    hide Bit, FromMask;
  }

  lemma NothingIgnored(idx: nat, len: nat, b: nat)
    requires b < 64
    ensures Visible(idx, len, 0, b) <==> (idx == MaskLenToIdx(len) ==> 64 * idx + b < len)
  {
    SplitIs(len);
    ZeroIff(0);
    hide Bit;
  }

  // ---------------------------------------------------------------- what is found

  /** A result is a run, and lies no earlier than what the first mask lets through. */
  lemma {:induction false} Sound(q: Query, idx: nat, ignore: Word, r: int, lo: nat)
    requires Finds(q, idx, ignore, r) && q.n >= 1 && lo <= 64 * idx + 64
    requires forall b :: 0 <= b < 64 && Visible(idx, q.len, ignore, b) ==> lo <= 64 * idx + b
    ensures r == -1 || (lo <= r && 64 * idx <= r && RunAt(q.d, r, q.n, q.used))
    decreases |q.d| - idx
  {
    if idx < |q.d| {
      var o := Round(q, idx, ignore, r);
      hide Finds, Wanted, Visible, NoShown;
      match o {
        case Stop(_) => StopSound(q, idx, ignore, r, lo);
        case On(next, ignore') =>
          hide Steps;
          Sound(q, next, ignore', r, 64 * next);
      }
    }
  }

  lemma StopSound(q: Query, idx: nat, ignore: Word, r: int, lo: nat)
    requires Steps(q, idx, ignore, Stop(r)) && q.n >= 1
    requires forall b :: 0 <= b < 64 && Visible(idx, q.len, ignore, b) ==> lo <= 64 * idx + b
    ensures lo <= r && 64 * idx <= r && RunAt(q.d, r, q.n, q.used)
  {
    hide NoShown, Visible, Wanted;
    if b: nat :| r == 64 * idx + b && FirstShown(q, idx, ignore, b) {
      ShownRunAt(q, idx, ignore, b, q.n);
      assert Shown(q, idx, ignore, b);
    } else {
      var c: nat :| Tail(q, idx, ignore, c) && 1 <= c < q.n && r == 64 * (idx + 1) - c
        && RunAt(q.d, 64 * (idx + 1), q.n - c, q.used);
      ShownRunAt(q, idx, ignore, 64 - c, c);
      assert Shown(q, idx, ignore, 64 - c);
      RunJoin(q.d, r, c, q.n - c, q.used);
    }
  }

  lemma ShownRunAt(q: Query, idx: nat, ignore: Word, b: nat, n: nat)
    requires ShownRun(q, idx, ignore, b, n)
    ensures RunAt(q.d, 64 * idx + b, n, q.used)
  {
    hide Visible, Wanted;
    forall j | 64 * idx + b <= j < 64 * idx + b + n
      ensures Wanted(q.d, j, q.used)
    {
      assert Shown(q, idx, ignore, j - 64 * idx);
    }
  }

  // ---------------------------------------------------------------- what is not passed over

  /** The mask for word j when the search comes to word idx with `ignore`, and goes on word by word. */
  ghost function Carried(idx: nat, ignore: Word, j: nat): Word { if j == idx then ignore else 0 }

  /** The mask lets all of a run at p through that lies in the word where it begins. */
  ghost predicate LetThrough(q: Query, ignore: Word, p: nat) {
    forall b :: p % 64 <= b < 64 && 64 * (p / 64) + b < p + q.n ==> Visible(p / 64, q.len, ignore, b)
  }

  /** Neither of the two words before `word`, as far as they come after idx, ends in an entry. */
  ghost predicate EndsClear(d: seq<Word>, idx: nat, word: nat, used: bool) {
    forall j: nat :: idx <= j < word <= j + 2 ==> !Wanted(d, 64 * j + 63, used)
  }

  /** Part of the run at p that lies in its first word is let through, and the words before that are clear. */
  ghost predicate Reachable(q: Query, idx: nat, ignore: Word, p: nat) {
    && idx <= p / 64 && LetThrough(q, Carried(idx, ignore, p / 64), p) && EndsClear(q.d, idx, p / 64, q.used)
  }

  /** From a word before that of the run the search stops there or goes no further than to that word. */
  lemma ComesNearer(q: Query, idx: nat, ignore: Word, word: nat, o: Outcome)
    requires Steps(q, idx, ignore, o) && q.n >= 1 && idx < word < |q.d| && EndsClear(q.d, idx, word, q.used)
    ensures o.Stop? ==> 64 * idx <= o.r < 64 * idx + 64
    ensures o.On? ==> o.idx <= word && (o.idx == word ==> o.ignore == 0)
  {
    hide GoesOn, RunAt, Wanted, Visible;
    forall c: nat | Tail(q, idx, ignore, c) && 1 <= c < q.n
      ensures forall next: nat, ignore' :: GoesOn(q, idx, c, next, ignore') ==> next < word
    {
      TailEnds(q, idx, ignore, c);
      assert Wanted(q.d, 64 * idx + 63, q.used);
      hide Tail, NoShown, Shown, Steps;
      LostBehind(q, idx, c, word);
    }
    hide Tail, NoShown, Shown;
    StopsInWord(q, idx, ignore, o);
    GoesToNext(q, idx);
  }

  lemma StopsInWord(q: Query, idx: nat, ignore: Word, o: Outcome)
    requires Steps(q, idx, ignore, o) && q.n >= 1
    ensures o.Stop? ==> 64 * idx <= o.r < 64 * idx + 64
  {
    hide NoShown, Shown, RunAt, GoesOn;
  }

  lemma GoesToNext(q: Query, idx: nat)
    requires q.n >= 1
    ensures forall next, ignore :: GoesOn(q, idx, 0, next, ignore) ==> next == idx + 1 && ignore == 0
  {
  }

  /** A run lost further back is lost before a word whose predecessor does not end in an entry. */
  lemma LostBehind(q: Query, idx: nat, c: nat, word: nat)
    requires 1 <= c < q.n && idx + 2 < word < |q.d| && !Wanted(q.d, 64 * (word - 2) + 63, q.used)
    ensures forall next: nat, ignore :: GoesOn(q, idx, c, next, ignore) ==> next < word
  {
    hide Wanted, Need;
    forall next: nat, ignore | GoesOn(q, idx, c, next, ignore)
      ensures next < word
    {
      if next >= word {
        assert false;
      }
    }
  }

  /** The search comes to a word before which two words are clear with nothing ignored there, or ends before it. */
  lemma {:induction false} Arrives(q: Query, idx: nat, ignore: Word, word: nat, r: int)
    requires Finds(q, idx, ignore, r) && q.n >= 1 && idx <= word < |q.d| && EndsClear(q.d, idx, word, q.used)
    ensures 64 * idx <= r < 64 * word || Finds(q, word, Carried(idx, ignore, word), r)
    decreases |q.d| - idx
  {
    hide Steps, Wanted;
    if idx < word {
      var o := Round(q, idx, ignore, r);
      hide Finds;
      ComesNearer(q, idx, ignore, word, o);
      if o.On? {
        Arrives(q, o.idx, o.ignore, word, r);
      }
    }
  }

  /**
   Such a run is not passed over, whatever was found or lost further back: of a run that is lost
   only the word in which it is lost is skipped, and at most the start of the next one ignored.
   */
  lemma NotPassed(q: Query, idx: nat, ignore: Word, p: nat, r: int)
    requires Finds(q, idx, ignore, r) && q.n >= 1 && RunAt(q.d, p, q.n, q.used) && Reachable(q, idx, ignore, p)
    ensures 0 <= r <= p
  {
    assert Wanted(q.d, p, q.used);
    hide Finds, Wanted, Steps, LetThrough, RunAt, EndsClear;
    var word := p / 64;
    Arrives(q, idx, ignore, word, r);
    if r >= 64 * word || r < 64 * idx {
      var o := Round(q, word, Carried(idx, ignore, word), r);
      ClearHere(q.d, word, q.used);
      InItsWord(q, word, Carried(idx, ignore, word), p, o);
    }
  }

  lemma ClearHere(d: seq<Word>, word: nat, used: bool)
    ensures EndsClear(d, word, word, used)
  {
    hide Wanted;
  }

  /** A word that does not end in an entry leads nowhere but into the next word. */
  lemma NoTail(q: Query, idx: nat, ignore: Word, o: Outcome)
    requires Steps(q, idx, ignore, o) && !Shown(q, idx, ignore, 63) && q.n >= 1
    ensures o.Stop? ==> 64 * idx <= o.r < 64 * idx + 64
    ensures o.On? ==> o == On(idx + 1, 0)
  {
    forall c: nat | Tail(q, idx, ignore, c)
      ensures c == 0
    {
      if c > 0 {
        TailEnds(q, idx, ignore, c);
      }
    }
    hide Shown, Tail, NoShown;
  }

  lemma TailEnds(q: Query, idx: nat, ignore: Word, c: nat)
    requires Tail(q, idx, ignore, c) && c > 0
    ensures Shown(q, idx, ignore, 63)
  {
    hide Shown;
  }

  /** In the word where the run begins it, or one before it, is found. */
  lemma InItsWord(q: Query, idx: nat, ignore: Word, p: nat, o: Outcome)
    requires Steps(q, idx, ignore, o) && q.n >= 1 && RunAt(q.d, p, q.n, q.used)
    requires p / 64 == idx && Reachable(q, idx, ignore, p)
    ensures o.Stop? && 0 <= o.r <= p
  {
    var b, m := p % 64, if p % 64 + q.n <= 64 then q.n else 64 - p % 64;
    forall t | b <= t < b + m
      ensures Shown(q, idx, ignore, t)
    {
      assert 64 * (p / 64) + t < p + q.n;
      assert Wanted(q.d, 64 * idx + t, q.used);
    }
    assert ShownRun(q, idx, ignore, b, m);
    hide Wanted, Visible, Reachable;
    if b + q.n <= 64 {
      hide Shown;
    } else {
      hide GoesOn;
      forall c: nat | Tail(q, idx, ignore, c)
        ensures 1 <= 64 - b <= c && 64 * (idx + 1) - c <= p
        ensures c < q.n ==> RunAt(q.d, 64 * (idx + 1), q.n - c, q.used)
        ensures c < q.n ==> forall next, g :: !GoesOn(q, idx, c, next, g)
      {
        TailCovers(q, idx, ignore, b, c);
        if c < q.n {
          RunRest(q.d, p, q.n, 64 * (idx + 1), q.n - c, q.used);
          RunGoesThrough(q, idx, c);
        }
      }
      hide Shown, Tail, RunAt;
    }
  }

  lemma TailCovers(q: Query, idx: nat, ignore: Word, b: nat, c: nat)
    requires b < 64 && ShownRun(q, idx, ignore, b, 64 - b) && Tail(q, idx, ignore, c)
    ensures c >= 64 - b
  {
    hide Shown;
  }

  lemma RunRest(d: seq<Word>, p: int, n: nat, i: int, m: nat, used: bool)
    requires RunAt(d, p, n, used) && p <= i && i + m <= p + n
    ensures RunAt(d, i, m, used)
  {
    hide Wanted;
  }

  /** A run that is there is neither lost nor cut off. */
  lemma RunGoesThrough(q: Query, idx: nat, c: nat)
    requires 1 <= c < q.n && RunAt(q.d, 64 * (idx + 1), q.n - c, q.used)
    ensures forall next, ignore :: !GoesOn(q, idx, c, next, ignore)
  {
    var from, want := idx + 1, q.n - c;
    forall a: nat
      ensures !LostAt(q, from, want, a)
    {
      NotLost(q, from, want, a);
    }
    assert Wanted(q.d, 64 * (idx + 1) + (q.n - c) - 1, q.used);
    hide LostAt, RunAt;
  }

  lemma NotLost(q: Query, from: nat, want: nat, a: nat)
    requires RunAt(q.d, 64 * from, want, q.used)
    ensures !LostAt(q, from, want, a)
  {
    if from <= a && 64 * (a - from) < want {
      RunRest(q.d, 64 * from, want, 64 * a, Need(want, from, a), q.used);
    }
    hide RunAt;
  }

  // ---------------------------------------------------------------- what a search promises

  /**
   What a run that was found is: it starts no earlier than start unless start lies in the last,
   partial word; a used run, and any run when the length is a multiple of 64, ends by the length.
   */
  ghost predicate RunFound(d: seq<Word>, r: int, n: nat, start: nat, len: nat, used: bool) {
    && RunAt(d, r, n, used)
    && 64 * (MaskLenToIdx(start)) <= r && r + n <= 64 * |d|
    && (MaskLenToIdx(start) < MaskLenToIdx(len) ==> start <= r)
    && (used || len % 64 == 0 ==> r + n <= len)
  }

  /** What find_next_n gives for a start in the last, partial word: the least run in all of that word. */
  ghost predicate WordSearched(d: seq<Word>, r: int, n: nat, start: nat, used: bool) {
    LeastRun(d, r, RunLen(n), 64 * MaskLenToIdx(start), 64 * |d|, used)
  }

  /**
   The run at p begins in a word before the last, or ends by the length, and neither of the two
   words before its own, as far as they come after start, ends in an entry.
   */
  ghost predicate Clear(d: seq<Word>, p: nat, n: nat, start: nat, len: nat, used: bool) {
    && start <= p && RunAt(d, p, n, used) && (MaskLenToIdx(p) < MaskLenToIdx(len) || p + n <= len)
    && forall j: nat :: MaskLenToIdx(start) <= j < MaskLenToIdx(p) <= j + 2 ==> !Wanted(d, 64 * j + 63, used)
  }

  /**
   What find_next_n promises of its result: if it is a run it lies as `RunFound` says; nothing is
   found for n = 0; a run is not passed over if neither of the two words before it ends in an entry;
   from the last, partial word the result is the least run of that word, and a search for one entry from
   elsewhere is find_next.
   */
  ghost predicate RunSearched(d: seq<Word>, r: int, n: nat, start: nat, len: nat, used: bool) {
    && SearchGives(d, r, n, start, len, used)
    && (r == -1 || (n >= 1 && RunFound(d, r, n, start, len, used)))
    && (forall p :: n >= 1 && Clear(d, p, n, start, len, used) ==> 0 <= r <= p)
    && (InLastWord(start, len) ==> WordSearched(d, r, n, start, used))
    && (n == 1 && !InLastWord(start, len) ==> NextFound(d, r, start, len, used))
  }

  lemma SearchedIs(d: seq<Word>, r: int, n: nat, start: nat, len: nat, used: bool)
    requires MaskFor(d, len) && start < len && SearchGives(d, r, n, start, len, used)
    ensures RunSearched(d, r, n, start, len, used)
  {
    var q := Query(d, len, RunLen(n), used);
    var idx, ignore := MaskLenToIdx(start), FromMask(MaskLenToMod(start));
    FirstWord(start, len, |d|);
    hide Finds, FromMask, RunFound, LeastRun, NextFound, NoneBeyond, MaskLenToMod, Clear;
    forall b | 0 <= b < 64
      ensures Visible(idx, len, ignore, b) <==> InLastWord(start, len) || 64 * idx + b >= start
    {
      StartVisible(start, len, b);
    }
    FoundIs(q, r, n, start);
    forall p | n >= 1 && Clear(d, p, n, start, len, used)
      ensures 0 <= r <= p
    {
      NotPassedOver(q, p, start, r);
    }
    if InLastWord(start, len) {
      WholeWord(q, idx, ignore, r);
    } else if n == 1 {
      OneFinds(q, idx, ignore, start, r);
    }
  }

  lemma FirstWord(start: nat, len: nat, nMasks: nat)
    requires start < len <= 64 * nMasks < len + 64
    ensures var first := MaskLenToIdx(start);
      first < nMasks && 64 * first <= start < 64 * first + 64 && (InLastWord(start, len) ==> nMasks == first + 1)
  {
  }

  lemma FoundIs(q: Query, r: int, n: nat, start: nat)
    requires MaskFor(q.d, q.len) && start < q.len && q.n == RunLen(n)
    requires Finds(q, MaskLenToIdx(start), FromMask(MaskLenToMod(start)), r)
    requires forall b :: 0 <= b < 64 ==>
               (Visible(MaskLenToIdx(start), q.len, FromMask(MaskLenToMod(start)), b)
                <==> InLastWord(start, q.len) || 64 * MaskLenToIdx(start) + b >= start)
    ensures r == -1 || (n >= 1 && RunFound(q.d, r, n, start, q.len, q.used))
  {
    var idx, ignore := MaskLenToIdx(start), FromMask(MaskLenToMod(start));
    FirstWord(start, q.len, |q.d|);
    var lo := if InLastWord(start, q.len) then 64 * idx else start;
    hide Finds, FromMask, RunAt, NoneBeyond, MaskLenToMod, Visible;
    Sound(q, idx, ignore, r, lo);
    if r != -1 {
      RunInside(q.d, r, q.n, q.len, q.used);
    }
  }

  lemma NotPassedOver(q: Query, p: nat, start: nat, r: int)
    requires MaskFor(q.d, q.len) && start < q.len && q.n >= 1 && Clear(q.d, p, q.n, start, q.len, q.used)
    requires Finds(q, MaskLenToIdx(start), FromMask(MaskLenToMod(start)), r)
    requires forall b :: 0 <= b < 64 ==>
               (Visible(MaskLenToIdx(start), q.len, FromMask(MaskLenToMod(start)), b)
                <==> InLastWord(start, q.len) || 64 * MaskLenToIdx(start) + b >= start)
    ensures 0 <= r <= p
  {
    var idx, ignore := MaskLenToIdx(start), FromMask(MaskLenToMod(start));
    hide Finds, FromMask, NoneBeyond, MaskLenToMod, Visible;
    forall b | p % 64 <= b < 64 && 64 * (p / 64) + b < p + q.n
      ensures Visible(p / 64, q.len, Carried(idx, ignore, p / 64), b)
    {
      if p / 64 != idx {
        NothingIgnored(p / 64, q.len, b);
      }
    }
    assert Reachable(q, idx, ignore, p);
    NotPassed(q, idx, ignore, p, r);
  }

  /** In a last word that is let through whole. */
  lemma WholeWord(q: Query, idx: nat, ignore: Word, r: int)
    requires |q.d| == idx + 1 && q.n >= 1 && Finds(q, idx, ignore, r)
    requires forall b :: 0 <= b < 64 ==> Visible(idx, q.len, ignore, b)
    ensures LeastRun(q.d, r, q.n, 64 * idx, 64 * |q.d|, q.used)
  {
    hide Visible, Wanted;
    Sound(q, idx, ignore, r, 64 * idx);
    hide Finds;
    NoRunAcross(q.d, q.n, q.used);
    hide RunAt, Shown;
    forall p | 64 * idx <= p < 64 * |q.d| && RunAt(q.d, p, q.n, q.used)
      ensures 0 <= r <= p
    {
      assert p / 64 == idx;
      NotPassed(q, idx, ignore, p, r);
    }
  }

  lemma NoRunAcross(d: seq<Word>, n: nat, used: bool)
    requires n >= 1
    ensures forall i :: RunAt(d, i, n, used) ==> 0 <= i && i + n <= 64 * |d|
  {
    forall i | RunAt(d, i, n, used)
      ensures 0 <= i && i + n <= 64 * |d|
    {
      assert Wanted(d, i, used) && Wanted(d, i + n - 1, used);
    }
  }

  /** A search for one entry, while nothing is ignored from lo to the length. */
  lemma {:induction false} OneFinds(q: Query, idx: nat, ignore: Word, lo: nat, r: int)
    requires q.n == 1 && Finds(q, idx, ignore, r) && q.len <= 64 * |q.d| < q.len + 64 && lo <= q.len
    requires if idx < |q.d| then 64 * idx <= lo < 64 * idx + 64 else lo == q.len
    requires forall b :: 0 <= b < 64 ==> (Visible(idx, q.len, ignore, b) <==> lo <= 64 * idx + b < Hi(idx, q.len))
    ensures NextFound(q.d, r, lo, q.len, q.used)
    decreases |q.d| - idx
  {
    hide Wanted, Visible, Steps, NextFound, NoneIn;
    if idx < |q.d| {
      var o := Round(q, idx, ignore, r);
      hide Finds;
      OneStep(q, idx, ignore, lo, o);
      if o.On? {
        var next, hi := idx + 1, Hi(idx, q.len);
        forall b | 0 <= b < 64
          ensures Visible(next, q.len, 0, b) <==> hi <= 64 * next + b < Hi(next, q.len)
        {
          NothingIgnored(next, q.len, b);
        }
        OneFinds(q, next, 0, hi, r);
        NextAfterNone(q.d, r, lo, hi, q.len, q.used);
      }
    } else {
      NothingTo(q.d, lo, q.len, q.used);
    }
  }

  lemma NextAfterNone(d: seq<Word>, r: int, lo: nat, hi: nat, len: nat, used: bool)
    requires lo <= hi && NoneIn(d, lo, hi, used) && NextFound(d, r, hi, len, used)
    ensures NextFound(d, r, lo, len, used)
  {
    hide Wanted;
  }

  lemma NothingTo(d: seq<Word>, lo: nat, len: nat, used: bool)
    requires lo == len
    ensures NextFound(d, -1, lo, len, used)
  {
  }

  lemma OneStep(q: Query, idx: nat, ignore: Word, lo: nat, o: Outcome)
    requires q.n == 1 && idx < |q.d| && Steps(q, idx, ignore, o) && q.len <= 64 * |q.d| < q.len + 64
    requires 64 * idx <= lo < 64 * idx + 64
    requires forall b :: 0 <= b < 64 ==> (Visible(idx, q.len, ignore, b) <==> lo <= 64 * idx + b < Hi(idx, q.len))
    ensures o.Stop? ==> NextFound(q.d, o.r, lo, q.len, q.used)
    ensures o.On? ==> o == On(idx + 1, 0) && NoneIn(q.d, lo, Hi(idx, q.len), q.used)
  {
    hide Visible, Wanted;
    forall b: nat
      ensures ShownRun(q, idx, ignore, b, 1) <==>
              lo <= 64 * idx + b < Hi(idx, q.len) && Wanted(q.d, 64 * idx + b, q.used)
    {
      assert ShownRun(q, idx, ignore, b, 1) ==> Shown(q, idx, ignore, b);
    }
    hide ShownRun, Shown;
    forall i | lo <= i < Hi(idx, q.len)
      ensures NoShown(q, idx, ignore) ==> !Wanted(q.d, i, q.used)
      ensures forall b: nat :: FirstShown(q, idx, ignore, b) && i < 64 * idx + b ==> !Wanted(q.d, i, q.used)
    {
      var a: nat := i - 64 * idx;
      assert ShownRun(q, idx, ignore, a, q.n) <==> Wanted(q.d, i, q.used);
    }
  }

  /** The count tells a caller that there is no run of n entries. */
  ghost predicate Few(d: seq<Word>, n: nat, len: nat, used: bool)
    requires len <= 64 * |d|
  {
    if used then Ones(d, len) < n else Ones(d, len) == len || len - Ones(d, len) < n
  }

  /** What a caller of rte_fbarray_find_next_n_free and rte_fbarray_find_next_n_used gets. */
  ghost predicate RunAnswer(d: seq<Word>, r: int, n: nat, start: nat, len: nat, used: bool)
    requires len <= 64 * |d|
  {
    if Few(d, n, len, used) then r == -1 else RunSearched(d, r, n, start, len, used)
  }
}
