/**
 How many huge pages of each size are taken from each socket: the requested memory is split
 over the sockets, and each share is met from the page sizes in order.
 */
module HugePages {

  /** A page size, with the number of its pages that are free on each socket. */
  datatype HugepageInfo = HugepageInfo(size: nat, pages: seq<nat>) {
    function At(s: nat): nat { if s < |pages| then pages[s] else 0 }
  }

  ghost predicate WellFormed(info: seq<HugepageInfo>, sockets: nat) {
    forall i :: 0 <= i < |info| ==> info[i].size > 0 && |info[i].pages| == sockets
  }

  function Min(a: nat, b: nat): nat { if a < b then a else b }

  /** The bytes in n pages of a size. */
  function PageBytes(size: nat, n: nat): nat { size * n }

  /** Whole pages of a size that fit into m bytes, as far as there are any. */
  function Fitting(m: nat, size: nat, avail: nat): nat
    requires size > 0
  {
    Min(m / size, avail)
  }

  // ---------------------------------------------------------------- sums

  /** Memory on a socket in pages of the sizes from i on. */
  ghost function CapFrom(info: seq<HugepageInfo>, s: nat, i: nat): nat
    requires i <= |info|
    decreases |info| - i
  {
    if i == |info| then 0 else PageBytes(info[i].size, info[i].At(s)) + CapFrom(info, s, i + 1)
  }

  /** Memory on the first n sockets. */
  ghost function Total(info: seq<HugepageInfo>, n: nat): nat {
    if n == 0 then 0 else Total(info, n - 1) + CapFrom(info, n - 1, 0)
  }

  ghost function Sum(a: seq<nat>): nat {
    if a == [] then 0 else Sum(a[..|a| - 1]) + a[|a| - 1]
  }

  /** The bytes in the pages that were taken. */
  ghost function Bytes(info: seq<HugepageInfo>, taken: seq<nat>): nat
    requires |taken| <= |info|
  {
    if taken == [] then 0 else Bytes(info, taken[..|taken| - 1]) + PageBytes(info[|taken| - 1].size, taken[|taken| - 1])
  }

  lemma {:induction false} SumUpdate(a: seq<nat>, i: nat, x: nat)
    requires i < |a|
    ensures Sum(a[i := x]) == Sum(a) - a[i] + x
  {
    var n := |a| - 1;
    if i == n {
      assert a[i := x][..n] == a[..n];
    } else {
      assert a[i := x][..n] == a[..n][i := x];
      SumUpdate(a[..n], i, x);
    }
  }

  lemma {:induction false} SumZero(a: seq<nat>)
    requires forall i :: 0 <= i < |a| ==> a[i] == 0
    ensures Sum(a) == 0
  {
    if a != [] {
      SumZero(a[..|a| - 1]);
    }
  }

  lemma {:induction false} BytesUpdate(info: seq<HugepageInfo>, taken: seq<nat>, i: nat, x: nat)
    requires |taken| <= |info| && i < |taken|
    ensures Bytes(info, taken[i := x]) ==
            Bytes(info, taken) - PageBytes(info[i].size, taken[i]) + PageBytes(info[i].size, x)
  {
    var n := |taken| - 1;
    if i == n {
      assert taken[i := x][..n] == taken[..n];
    } else {
      assert taken[i := x][..n] == taken[..n][i := x];
      BytesUpdate(info, taken[..n], i, x);
    }
  }

  lemma {:induction false} BytesZero(info: seq<HugepageInfo>, taken: seq<nat>)
    requires |taken| <= |info| && forall i :: 0 <= i < |taken| ==> taken[i] == 0
    ensures Bytes(info, taken) == 0
  {
    if taken != [] {
      BytesZero(info, taken[..|taken| - 1]);
    }
  }

  // ---------------------------------------------------------------- one socket

  /** No more than one page beyond what was wanted, and that page was needed. */
  ghost predicate Tight(info: seq<HugepageInfo>, taken: seq<nat>, want: nat)
    requires |taken| == |info|
  {
    Bytes(info, taken) <= want
    || exists i :: 0 <= i < |info| && taken[i] > 0 && Bytes(info, taken) - info[i].size < want
  }

  /** How much one socket gives for a request. */
  ghost predicate Met(info: seq<HugepageInfo>, s: nat, want: nat, taken: seq<nat>, left: nat)
  {
    && |taken| == |info|
    && (forall i :: 0 <= i < |info| ==> taken[i] <= info[i].At(s))
    && left == (if want <= CapFrom(info, s, 0) then 0 else want - CapFrom(info, s, 0))
    && Bytes(info, taken) >= want - left
    && Tight(info, taken, want - left)
  }

  lemma WholePages(m: nat, size: nat, avail: nat)
    requires size > 0
    ensures var p := Fitting(m, size, avail);
      && PageBytes(size, p) <= m && p <= avail
      && (p < avail ==> m - PageBytes(size, p) < size && m <= PageBytes(size, avail))
  {
    var q := m / size;
    var p := Min(q, avail);
    assert m == q * size + m % size;
    MulMono(p, q, size);
    if p < avail {
      MulMono(p + 1, avail, size);
      assert (p + 1) * size == p * size + size;
    }
  }

  lemma OnePage(size: nat, n: nat)
    ensures PageBytes(size, n + 1) == PageBytes(size, n) + size && PageBytes(size, 0) == 0
  {
  }

  lemma MulMono(a: nat, b: nat, m: nat)
    ensures a <= b ==> a * m <= b * m
  {
    if a <= b {
      assert b * m == a * m + (b - a) * m;
    }
  }

  /** Where the loop over the page sizes stands before size i. */
  ghost predicate Taking(info: seq<HugepageInfo>, s: nat, want: nat, taken: seq<nat>, left: nat, i: nat)
    requires i <= |info|
  {
    && |taken| == |info|
    && (forall j :: 0 <= j < i ==> taken[j] <= info[j].At(s))
    && (forall j :: i <= j < |info| ==> taken[j] == 0)
    && Bytes(info, taken) + left == want
    && (if want <= CapFrom(info, s, 0) then left <= CapFrom(info, s, i)
        else left - CapFrom(info, s, i) == want - CapFrom(info, s, 0))
  }

  /** After the whole pages of size i that fit, when size i is used up or smaller sizes suffice. */
  lemma TakeWhole(info: seq<HugepageInfo>, s: nat, want: nat, taken: seq<nat>, left: nat, i: nat, p: nat)
    requires i < |info| && info[i].size > 0
    requires Taking(info, s, want, taken, left, i) && p == Fitting(left, info[i].size, info[i].At(s))
    ensures PageBytes(info[i].size, p) <= left && p <= info[i].At(s) && |taken| == |info| && taken[i] == 0
    ensures var left' := left - PageBytes(info[i].size, p);
      && (p == info[i].At(s) || left' <= CapFrom(info, s, i + 1) ==> Taking(info, s, want, taken[i := p], left', i + 1))
      && (p < info[i].At(s) ==> left' < info[i].size && LastPage(info, s, want, taken[i := p], left', i))
  {
    WholePages(left, info[i].size, info[i].At(s));
    BytesUpdate(info, taken, i, p);
    OnePage(info[i].size, 0);
    assert CapFrom(info, s, i) == PageBytes(info[i].size, info[i].At(s)) + CapFrom(info, s, i + 1);
    hide Bytes, CapFrom, PageBytes, Fitting;
  }

  lemma TakenAll(info: seq<HugepageInfo>, s: nat, want: nat, taken: seq<nat>, left: nat, i: nat)
    requires i <= |info|
    requires Taking(info, s, want, taken, left, i) && (i == |info| || left == 0)
    ensures Met(info, s, want, taken, left)
  {
    hide Bytes;
    assert i == |info| ==> CapFrom(info, s, i) == 0;
    hide CapFrom;
  }

  /** There are pages of size i left, and what is still wanted is less than one of them. */
  ghost predicate LastPage(info: seq<HugepageInfo>, s: nat, want: nat, taken: seq<nat>, left: nat, i: nat)
    requires i < |info|
  {
    && |taken| == |info| && taken[i] < info[i].At(s) && left < info[i].size && want <= CapFrom(info, s, 0)
    && (forall j :: 0 <= j < i ==> taken[j] <= info[j].At(s))
    && (forall j :: i < j < |info| ==> taken[j] == 0)
    && Bytes(info, taken) + left == want
  }

  lemma LastIs(info: seq<HugepageInfo>, s: nat, want: nat, taken: seq<nat>, left: nat, i: nat)
    requires i < |info|
    requires LastPage(info, s, want, taken, left, i)
    ensures Min(left, info[i].size) == left
  {
    hide Bytes, CapFrom;
  }

  lemma OneMore(info: seq<HugepageInfo>, s: nat, want: nat, taken: seq<nat>, left: nat, i: nat)
    requires i < |info|
    requires LastPage(info, s, want, taken, left, i) && left > 0
    ensures Met(info, s, want, taken[i := taken[i] + 1], 0)
  {
    var t := taken[i := taken[i] + 1];
    BytesUpdate(info, taken, i, taken[i] + 1);
    OnePage(info[i].size, taken[i]);
    hide Bytes, CapFrom, PageBytes;
    assert t[i] > 0 && Bytes(info, t) - info[i].size < want;
  }

  // ---------------------------------------------------------------- the order of the sizes

  /** What is still wanted when the loop comes to size i. */
  ghost function Rest(info: seq<HugepageInfo>, want: nat, taken: seq<nat>, i: nat): nat
    requires i <= |taken| <= |info|
  {
    var b := Bytes(info, taken[..i]);
    if b <= want then want - b else 0
  }

  /**
   Size i gives all the whole pages that fit into what is still wanted, and one page more only if
   it has one and the sizes that follow cannot give the remainder.
   */
  ghost predicate TakesAt(info: seq<HugepageInfo>, s: nat, want: nat, taken: seq<nat>, i: nat)
    requires i < |info| == |taken| && info[i].size > 0
  {
    var rest, avail := Rest(info, want, taken, i), info[i].At(s);
    var whole := Fitting(rest, info[i].size, avail);
    taken[i] == if whole < avail && rest - PageBytes(info[i].size, whole) > CapFrom(info, s, i + 1)
                then whole + 1 else whole
  }

  ghost predicate InOrder(info: seq<HugepageInfo>, s: nat, want: nat, taken: seq<nat>, n: nat) {
    n <= |info| == |taken| && forall i :: 0 <= i < n ==> info[i].size > 0 && TakesAt(info, s, want, taken, i)
  }

  lemma {:induction false} ZeroTail(info: seq<HugepageInfo>, taken: seq<nat>, n: nat)
    requires n <= |taken| <= |info| && forall j :: n <= j < |taken| ==> taken[j] == 0
    ensures Bytes(info, taken[..n]) == Bytes(info, taken)
  {
    if n == |taken| {
      assert taken[..n] == taken;
    } else {
      var front := taken[..|taken| - 1];
      assert front[..n] == taken[..n];
      ZeroTail(info, front, n);
      OnePage(info[|taken| - 1].size, 0);
      hide PageBytes;
    }
  }

  lemma TakesKept(info: seq<HugepageInfo>, s: nat, want: nat, a: seq<nat>, b: seq<nat>, i: nat)
    requires i < |info| == |a| == |b| && info[i].size > 0 && a[..i + 1] == b[..i + 1]
    requires TakesAt(info, s, want, a, i)
    ensures TakesAt(info, s, want, b, i)
  {
    hide Bytes, Fitting, PageBytes, CapFrom;
    assert a[..i] == a[..i + 1][..i] && b[..i] == b[..i + 1][..i];
    assert a[i] == a[..i + 1][i] && b[i] == b[..i + 1][i];
  }

  lemma InOrderStep(info: seq<HugepageInfo>, s: nat, want: nat, taken: seq<nat>, left: nat, i: nat, x: nat)
    requires i < |info| == |taken| && info[i].size > 0 && InOrder(info, s, want, taken, i)
    requires Bytes(info, taken) + left == want && forall j :: i <= j < |info| ==> taken[j] == 0
    requires var p := Fitting(left, info[i].size, info[i].At(s));
      x == if p < info[i].At(s) && left - PageBytes(info[i].size, p) > CapFrom(info, s, i + 1) then p + 1 else p
    ensures InOrder(info, s, want, taken[i := x], i + 1)
  {
    hide Bytes, Fitting, PageBytes, CapFrom;
    var t := taken[i := x];
    ZeroTail(info, taken, i);
    assert t[..i] == taken[..i];
    assert TakesAt(info, s, want, t, i);
    hide TakesAt;
    forall j | 0 <= j < i
      ensures info[j].size > 0 && TakesAt(info, s, want, t, j)
    {
      assert t[..j + 1] == taken[..j + 1];
      TakesKept(info, s, want, taken, t, j);
    }
  }

  lemma NothingFits(size: nat, avail: nat)
    requires size > 0
    ensures Fitting(0, size, avail) == 0 && PageBytes(size, 0) == 0
  {
  }

  lemma InOrderEnd(info: seq<HugepageInfo>, s: nat, want: nat, taken: seq<nat>, i: nat)
    requires i <= |info| == |taken| && InOrder(info, s, want, taken, i)
    requires forall j :: i <= j < |info| ==> taken[j] == 0 && info[j].size > 0
    requires Bytes(info, taken) >= want || i == |info|
    ensures InOrder(info, s, want, taken, |info|)
  {
    hide Bytes, Fitting, PageBytes, CapFrom;
    forall j | i <= j < |info|
      ensures TakesAt(info, s, want, taken, j)
    {
      ZeroTail(info, taken, j);
      NothingFits(info[j].size, info[j].At(s));
    }
  }

  lemma TakingIs(info: seq<HugepageInfo>, s: nat, want: nat, taken: seq<nat>, left: nat, i: nat)
    requires i <= |info| && Taking(info, s, want, taken, left, i)
    ensures |taken| == |info| && Bytes(info, taken) + left == want
    ensures forall j :: i <= j < |info| ==> taken[j] == 0
  {
    hide Bytes, CapFrom;
  }

  /** The pages that a socket gives of each size are determined by what it is asked for. */
  lemma {:induction false} OneWay(info: seq<HugepageInfo>, s: nat, want: nat, a: seq<nat>, b: seq<nat>, n: nat)
    requires InOrder(info, s, want, a, n) && InOrder(info, s, want, b, n)
    ensures a[..n] == b[..n]
  {
    hide Bytes, Fitting, PageBytes, CapFrom;
    if n > 0 {
      var m := n - 1;
      OneWay(info, s, want, a, b, m);
      assert TakesAt(info, s, want, a, m) && TakesAt(info, s, want, b, m);
      assert a[..n] == a[..m] + [a[m]] && b[..n] == b[..m] + [b[m]];
    }
  }

  /** Size i has given its whole pages, and either it has no more or the sizes that follow can give the rest. */
  lemma SizeDone(info: seq<HugepageInfo>, s: nat, want: nat, taken: seq<nat>, left: nat, i: nat, p: nat, left': nat)
    requires i < |info| && info[i].size > 0
    requires Taking(info, s, want, taken, left, i) && InOrder(info, s, want, taken, i)
    requires p == Fitting(left, info[i].size, info[i].At(s)) && left' == left - PageBytes(info[i].size, p)
    requires left' == 0 || p == info[i].At(s) || left' <= CapFrom(info, s, i + 1)
    ensures |taken| == |info|
    ensures Taking(info, s, want, taken[i := p], left', i + 1) && InOrder(info, s, want, taken[i := p], i + 1)
  {
    hide Bytes, Fitting, PageBytes, CapFrom, Taking, InOrder, LastPage;
    TakingIs(info, s, want, taken, left, i);
    TakeWhole(info, s, want, taken, left, i, p);
    InOrderStep(info, s, want, taken, left, i, p);
  }

  /** One page more of size i meets the share, and no other size is used. */
  lemma SizeLast(info: seq<HugepageInfo>, s: nat, want: nat, taken: seq<nat>, left: nat, i: nat, p: nat, left': nat)
    requires i < |info| && forall j :: 0 <= j < |info| ==> info[j].size > 0
    requires Taking(info, s, want, taken, left, i) && InOrder(info, s, want, taken, i)
    requires p == Fitting(left, info[i].size, info[i].At(s)) && left' == left - PageBytes(info[i].size, p)
    requires p < info[i].At(s) && left' > CapFrom(info, s, i + 1)
    ensures |taken| == |info| && Min(left', info[i].size) == left'
    ensures Met(info, s, want, taken[i := p][i := p + 1], 0)
    ensures InOrder(info, s, want, taken[i := p][i := p + 1], |info|)
  {
    hide Bytes, Fitting, PageBytes, CapFrom, Taking, InOrder, LastPage, Met, Min;
    TakingIs(info, s, want, taken, left, i);
    TakeWhole(info, s, want, taken, left, i, p);
    InOrderStep(info, s, want, taken, left, i, p + 1);
    var t := taken[i := p];
    assert taken[i := p + 1] == t[i := p + 1];
    OneMore(info, s, want, t, left', i);
    LastIs(info, s, want, t, left', i);
    MetBytes(info, s, want, t[i := p + 1]);
    InOrderEnd(info, s, want, t[i := p + 1], i + 1);
  }

  lemma WholeFits(info: seq<HugepageInfo>, s: nat, want: nat, taken: seq<nat>, left: nat, i: nat, p: nat)
    requires i < |info| && info[i].size > 0
    requires Taking(info, s, want, taken, left, i) && p == Fitting(left, info[i].size, info[i].At(s))
    ensures |taken| == |info| && taken[i] == 0 && PageBytes(info[i].size, p) <= left && p <= info[i].At(s)
  {
    hide Bytes, Fitting, PageBytes, CapFrom, Taking, LastPage;
    TakeWhole(info, s, want, taken, left, i, p);
  }

  lemma MetBytes(info: seq<HugepageInfo>, s: nat, want: nat, taken: seq<nat>)
    requires Met(info, s, want, taken, 0)
    ensures |taken| == |info| && Bytes(info, taken) >= want
  {
    hide Bytes, CapFrom, Tight;
  }

  lemma AllDone(info: seq<HugepageInfo>, s: nat, want: nat, taken: seq<nat>, left: nat, i: nat)
    requires i <= |info| && forall j :: 0 <= j < |info| ==> info[j].size > 0
    requires Taking(info, s, want, taken, left, i) && InOrder(info, s, want, taken, i) && (left == 0 || i == |info|)
    ensures InOrder(info, s, want, taken, |info|)
  {
    hide Bytes, CapFrom, Taking, InOrder;
    TakingIs(info, s, want, taken, left, i);
    InOrderEnd(info, s, want, taken, i);
  }

  /** What one socket gives for a request, in which sizes. */
  ghost predicate Served(info: seq<HugepageInfo>, s: nat, want: nat, taken: seq<nat>, left: nat) {
    Met(info, s, want, taken, left) && InOrder(info, s, want, taken, |info|)
  }

  /** Every socket but s has given what it had given. */
  ghost predicate OthersKept(now: seq<seq<nat>>, was: seq<seq<nat>>, s: nat) {
    |now| == |was| && forall t :: 0 <= t < |now| && t != s ==> now[t] == was[t]
  }

  /** The inner loop over the page sizes, for the share of one socket; row[i] is hp_used[i].num_pages[s]. */
  method TakePages(info: seq<HugepageInfo>, s: nat, want: nat, zeroed: seq<nat>)
    returns (row: seq<nat>, left: nat, pages: nat)
    requires forall i :: 0 <= i < |info| ==> info[i].size > 0
    requires |zeroed| == |info| && forall i :: 0 <= i < |info| ==> zeroed[i] == 0
    ensures Served(info, s, want, row, left)
    ensures pages == Sum(row)
  {
    hide CapFrom, Bytes, Sum, PageBytes, Taking, Met, Min, Fitting, InOrder;
    row, left, pages := zeroed, want, 0;
    var i := 0;
    SumZero(row);
    TakeNone(info, s, want, row);
    while i < |info| && left != 0
      invariant i <= |info|
      invariant Taking(info, s, want, row, left, i) && pages == Sum(row)
      invariant InOrder(info, s, want, row, i)
    {
      var p := Fitting(left, info[i].size, info[i].At(s));
      WholeFits(info, s, want, row, left, i, p);
      SumUpdate(row, i, p);
      ghost var was, had := row, left;
      row := row[i := p];
      left := left - PageBytes(info[i].size, p);
      pages := pages + p;
      if left != 0 && row[i] != info[i].At(s) {
        var remainingMem := OtherMemory(info, s, i + 1);
        if remainingMem < left {
          SizeLast(info, s, want, was, had, i, p, left);
          SumUpdate(row, i, p + 1);
          row := row[i := row[i] + 1];
          left := left - Min(left, info[i].size);
          pages := pages + 1;
          return;
        }
      }
      SizeDone(info, s, want, was, had, i, p, left);
      i := i + 1;
    }
    AllDone(info, s, want, row, left, i);
    TakenAll(info, s, want, row, left, i);
  }

  lemma TakeNone(info: seq<HugepageInfo>, s: nat, want: nat, taken: seq<nat>)
    requires |taken| == |info| && forall i :: 0 <= i < |info| ==> taken[i] == 0
    ensures Taking(info, s, want, taken, want, 0) && InOrder(info, s, want, taken, 0)
  {
    BytesZero(info, taken);
  }

  /** The loop over the sizes that follow. */
  method OtherMemory(info: seq<HugepageInfo>, s: nat, from: nat) returns (remainingMem: nat)
    requires from <= |info|
    ensures remainingMem == CapFrom(info, s, from)
  {
    remainingMem := 0;
    var j := from;
    while j < |info|
      invariant from <= j <= |info| && remainingMem + CapFrom(info, s, j) == CapFrom(info, s, from)
    {
      remainingMem := remainingMem + PageBytes(info[j].size, info[j].At(s));
      j := j + 1;
    }
  }

  // ---------------------------------------------------------------- the split over the sockets

  lemma {:induction false} SumAgainstTotal(info: seq<HugepageInfo>, a: seq<nat>)
    requires forall t :: 0 <= t < |a| ==> a[t] <= CapFrom(info, t, 0)
    ensures Sum(a) <= Total(info, |a|)
    ensures (forall t :: 0 <= t < |a| ==> a[t] == CapFrom(info, t, 0)) ==> Sum(a) == Total(info, |a|)
  {
    hide CapFrom;
    if a != [] {
      SumAgainstTotal(info, a[..|a| - 1]);
    }
  }

  lemma MulCancel(a: nat, b: nat, m: nat)
    requires m > 0 && a * m <= b * m
    ensures a <= b
  {
    assert (b + 1) * m == b * m + m;
    if a > b {
      MulMono(b + 1, a, m);
    }
  }

  /** requested * cpu / cores */
  function Share(requested: nat, cpu: nat, cores: nat): nat
    requires cores > 0
  {
    requested * cpu / cores
  }

  /** What was given so far is no more than the part of the cores it was given for. */
  ghost predicate Within(requested: nat, cores: nat, given: nat, before: nat) {
    given * cores <= requested * before
  }

  /** The shares by number of cores never add up to more than what is asked for. */
  lemma ShareFits(requested: nat, cores: nat, given: nat, before: nat, here: nat, d: nat)
    requires cores > 0 && before + here <= cores && Within(requested, cores, given, before)
    requires d <= Share(requested, here, cores)
    ensures given + d <= requested
    ensures Within(requested, cores, given + d, before + here)
  {
    QuotientBelow(requested * here, cores, d);
    Distributes(given, d, cores);
    Distributes(before, here, requested);
    MulMono(before + here, cores, requested);
    MulSwap(requested, before, here, cores);
    assert (given + d) * cores <= requested * cores;
    MulCancel(given + d, requested, cores);
  }

  lemma QuotientBelow(x: nat, m: nat, d: nat)
    requires m > 0 && d <= x / m
    ensures d * m <= x
  {
    assert x == (x / m) * m + x % m;
    MulMono(d, x / m, m);
  }

  lemma Distributes(a: nat, b: nat, m: nat)
    ensures (a + b) * m == a * m + b * m
  {
  }

  lemma MulSwap(r: nat, a: nat, b: nat, c: nat)
    ensures r * a == a * r && r * b == b * r && r * c == c * r && r * (a + b) == (a + b) * r
  {
  }

  /** Cores per socket; `lcores` has the socket of each core. */
  method CountCores(lcores: seq<nat>, sockets: nat) returns (cpuPerSocket: array<nat>)
    requires forall l :: 0 <= l < |lcores| ==> lcores[l] < sockets
    ensures fresh(cpuPerSocket) && cpuPerSocket.Length == sockets && Sum(cpuPerSocket[..]) == |lcores|
    ensures forall s :: 0 <= s < sockets ==> cpuPerSocket[s] == multiset(lcores)[s]
  {
    cpuPerSocket := new nat[sockets](_ => 0);
    SumZero(cpuPerSocket[..]);
    var l := 0;
    assert lcores[..|lcores|] == lcores;
    while l < |lcores|
      invariant l <= |lcores| && Sum(cpuPerSocket[..]) == l
      invariant forall s :: 0 <= s < sockets ==> cpuPerSocket[s] == multiset(lcores[..l])[s]
    {
      assert lcores[..l + 1] == lcores[..l] + [lcores[l]];
      var socket := lcores[l];
      SumUpdate(cpuPerSocket[..], socket, cpuPerSocket[socket] + 1);
      ghost var next := cpuPerSocket[..][socket := cpuPerSocket[socket] + 1];
      cpuPerSocket[socket] := cpuPerSocket[socket] + 1;
      assert cpuPerSocket[..] == next;
      l := l + 1;
    }
  }

  lemma {:induction false} SumPrefix(a: seq<nat>, n: nat)
    requires n <= |a|
    ensures Sum(a[..n]) <= Sum(a)
    ensures Sum(a[..n]) == Sum(a) ==> forall t :: n <= t < |a| ==> a[t] == 0
  {
    if n < |a| {
      assert a[..|a| - 1][..n] == a[..n];
      SumPrefix(a[..|a| - 1], n);
    } else {
      assert a[..n] == a;
    }
  }

  /** The part of the request that goes with the cores on socket s, as far as the socket has memory. */
  ghost function ByCores(info: seq<HugepageInfo>, lcores: seq<nat>, requested: nat, s: nat): nat
    requires |lcores| > 0
  {
    Min(requested * multiset(lcores)[s] / |lcores|, CapFrom(info, s, 0))
  }

  lemma ByCoresIs(info: seq<HugepageInfo>, lcores: seq<nat>, requested: nat)
    requires |lcores| > 0
    ensures forall s: nat :: ByCores(info, lcores, requested, s) ==
                             Min(Share(requested, multiset(lcores)[s], |lcores|), CapFrom(info, s, 0))
  {
    hide CapFrom;
  }

  /** When everything asked for has been given, the sockets that follow have no cores or nothing was asked for. */
  lemma NoneLeft(requested: nat, cores: nat, before: nat, here: nat)
    requires cores > 0 && before + here <= cores && Within(requested, cores, requested, before)
    ensures Share(requested, here, cores) == 0
  {
    if requested > 0 {
      MulSwap(requested, before, cores, cores);
      MulCancel(cores, before, requested);
    }
  }

  /** The first pass: by the cores on each socket, as far as the socket has memory. */
  method SpreadByCores(info: seq<HugepageInfo>, lcores: seq<nat>, requested: nat, memory: array<nat>)
    returns (totalSize: nat)
    requires WellFormed(info, memory.Length) && |lcores| > 0
    requires forall l :: 0 <= l < |lcores| ==> lcores[l] < memory.Length
    requires forall s :: 0 <= s < memory.Length ==> memory[s] == 0
    modifies memory
    ensures forall t :: 0 <= t < memory.Length ==> memory[t] == ByCores(info, lcores, requested, t)
    ensures Sum(memory[..]) + totalSize == requested
  {
    hide Sum, CapFrom, Share, Within, Min, WellFormed, ByCores;
    var cpuPerSocket := CountCores(lcores, memory.Length);
    ghost var cpus := cpuPerSocket[..];
    var cores := |lcores|;
    totalSize := requested;
    SumZero(memory[..]);
    ByCoresIs(info, lcores, requested);
    var s := 0;
    SumNone(cpus);
    while s < memory.Length && totalSize != 0
      invariant s <= memory.Length && totalSize <= requested && cpuPerSocket[..] == cpus
      invariant forall t :: 0 <= t < s ==> memory[t] == ByCores(info, lcores, requested, t)
      invariant forall t :: s <= t < memory.Length ==> memory[t] == 0
      invariant Sum(memory[..]) + totalSize == requested
      invariant Within(requested, cores, requested - totalSize, Sum(cpus[..s]))
    {
      SumTake(cpus, s);
      SumPrefix(cpus, s + 1);
      var defaultSize := Share(requested, cpuPerSocket[s], cores);
      var size := OtherMemory(info, s, 0);
      MinIs(defaultSize, size);
      defaultSize := Min(defaultSize, size);
      ShareFits(requested, cores, requested - totalSize, Sum(cpus[..s]), cpus[s], defaultSize);
      ghost var was := memory[..];
      SumUpdate(was, s, defaultSize);
      memory[s] := defaultSize;
      assert memory[..] == was[s := defaultSize];
      totalSize := totalSize - defaultSize;
      s := s + 1;
    }
    forall t | s <= t < memory.Length
      ensures ByCores(info, lcores, requested, t) == 0
    {
      SumBefore(cpus, s, t);
      NoneLeft(requested, cores, Sum(cpus[..s]), cpus[t]);
      MinIs(Share(requested, multiset(lcores)[t], cores), CapFrom(info, t, 0));
    }
  }

  lemma {:induction false} SumBefore(a: seq<nat>, s: nat, t: nat)
    requires s <= t < |a|
    ensures Sum(a[..s]) + a[t] <= Sum(a)
  {
    SumTake(a, t);
    SumPrefix(a, t + 1);
    assert a[..t][..s] == a[..s];
    SumPrefix(a[..t], s);
  }

  lemma SumNone(a: seq<nat>)
    ensures Sum(a[..0]) == 0
    ensures forall r: nat, c: nat :: Within(r, c, 0, Sum(a[..0]))
  {
  }

  lemma MinIs(a: nat, b: nat)
    ensures Min(a, b) <= a && Min(a, b) <= b && (Min(a, b) == a || Min(a, b) == b)
  {
  }

  lemma SumTake(a: seq<nat>, s: nat)
    requires s < |a|
    ensures Sum(a[..s + 1]) == Sum(a[..s]) + a[s]
  {
    assert a[..s + 1][..s] == a[..s];
  }

  /** The second pass: what is left, wherever there is memory. */
  method SpreadRest(info: seq<HugepageInfo>, totalSize: nat, memory: array<nat>) returns (rest: nat)
    requires WellFormed(info, memory.Length)
    requires forall t :: 0 <= t < memory.Length ==> memory[t] <= CapFrom(info, t, 0)
    modifies memory
    ensures forall t :: 0 <= t < memory.Length ==> old(memory[t]) <= memory[t] <= CapFrom(info, t, 0)
    ensures forall t, u :: 0 <= u < t < memory.Length && memory[t] > old(memory[t]) ==> memory[u] == CapFrom(info, u, 0)
    ensures Sum(memory[..]) == Min(old(Sum(memory[..])) + totalSize, Total(info, memory.Length))
    ensures Sum(memory[..]) + rest == old(Sum(memory[..])) + totalSize
  {
    hide Sum, CapFrom, WellFormed;
    rest := totalSize;
    ghost var all := Sum(memory[..]) + totalSize;
    var s := 0;
    while s < memory.Length && rest != 0
      invariant s <= memory.Length && Sum(memory[..]) + rest == all
      invariant forall t :: 0 <= t < memory.Length ==> memory[t] <= CapFrom(info, t, 0)
      invariant rest == 0 || forall t :: 0 <= t < s ==> memory[t] == CapFrom(info, t, 0)
      invariant forall t :: 0 <= t < s ==> old(memory[t]) <= memory[t]
      invariant forall t :: s <= t < memory.Length ==> old(memory[t]) == memory[t]
      invariant forall t, u :: 0 <= u < t < s && memory[t] > old(memory[t]) ==> memory[u] == CapFrom(info, u, 0)
    {
      var size := OtherMemory(info, s, 0);
      var more := Min(size - memory[s], rest);
      ghost var was := memory[..];
      SumUpdate(was, s, memory[s] + more);
      memory[s] := memory[s] + more;
      assert memory[..] == was[s := was[s] + more];
      rest := rest - more;
      s := s + 1;
    }
    SumAgainstTotal(info, memory[..]);
  }

  /**
   Every socket is asked for the part that goes with its cores, and for more only if each socket
   before it is asked for all it has.
   */
  ghost predicate SplitByCores(info: seq<HugepageInfo>, lcores: seq<nat>, requested: nat, share: seq<nat>)
    requires |lcores| > 0
  {
    && (forall s :: 0 <= s < |share| ==> ByCores(info, lcores, requested, s) <= share[s] <= CapFrom(info, s, 0))
    && (forall s, t :: 0 <= t < s < |share| && share[s] > ByCores(info, lcores, requested, s) ==>
      share[t] == CapFrom(info, t, 0))
  }

  lemma {:induction false} SumBelow(a: seq<nat>, b: seq<nat>)
    requires |a| == |b| && forall s :: 0 <= s < |a| ==> a[s] <= b[s]
    ensures Sum(a) <= Sum(b) && (Sum(a) == Sum(b) ==> a == b)
  {
    if a != [] {
      var n := |a| - 1;
      SumBelow(a[..n], b[..n]);
      assert a == a[..n] + [a[n]] && b == b[..n] + [b[n]];
    }
  }

  /** With the sum of the shares that fixes every share. */
  lemma SplitIsUnique(info: seq<HugepageInfo>, lcores: seq<nat>, requested: nat, a: seq<nat>, b: seq<nat>)
    requires |lcores| > 0 && |a| == |b| && Sum(a) == Sum(b)
    requires SplitByCores(info, lcores, requested, a) && SplitByCores(info, lcores, requested, b)
    ensures a == b
  {
    hide CapFrom, ByCores, Sum;
    if s :| 0 <= s < |a| && a[s] < b[s] {
      BelowEverywhere(info, lcores, requested, a, b, s);
      SumBelow(a, b);
    } else {
      SumBelow(b, a);
    }
  }

  /** If one split gives a socket less than the other, it gives no socket more. */
  lemma BelowEverywhere(info: seq<HugepageInfo>, lcores: seq<nat>, requested: nat, a: seq<nat>, b: seq<nat>, s: nat)
    requires |lcores| > 0 && s < |a| == |b| && a[s] < b[s]
    requires SplitByCores(info, lcores, requested, a) && SplitByCores(info, lcores, requested, b)
    ensures forall t :: 0 <= t < |a| ==> a[t] <= b[t]
  {
    hide CapFrom, ByCores;
    forall t | 0 <= t < |a|
      ensures a[t] <= b[t]
    {
      if t < s {
        assert b[s] > ByCores(info, lcores, requested, s);
      } else if t > s && a[t] > ByCores(info, lcores, requested, t) {
        assert false;
      }
    }
  }

  // ---------------------------------------------------------------- all sockets

  /** The pages on the first n sockets. */
  ghost function PagesOn(columns: seq<seq<nat>>, n: nat): nat
    requires n <= |columns|
  {
    if n == 0 then 0 else PagesOn(columns, n - 1) + Sum(columns[n - 1])
  }

  /** Some of the first n sockets is asked for more than it has. */
  ghost predicate Overdrawn(info: seq<HugepageInfo>, share: seq<nat>, n: nat)
    requires n <= |share|
  {
    exists t :: 0 <= t < n && share[t] > CapFrom(info, t, 0)
  }

  /** The sockets before s have been served, the others not. */
  ghost predicate ServedTo(info: seq<HugepageInfo>, share: seq<nat>, columns: seq<seq<nat>>, s: nat)
    requires s <= |share|
  {
    && |columns| == |share|
    && (forall t :: 0 <= t < s ==> Served(info, t, share[t], columns[t], Left(info, t, share[t])))
    && (forall t :: s <= t < |share| ==> |columns[t]| == |info| && forall i :: 0 <= i < |info| ==> columns[t][i] == 0)
  }

  /** What a socket cannot give. */
  ghost function Left(info: seq<HugepageInfo>, s: nat, want: nat): nat
  {
    if want <= CapFrom(info, s, 0) then 0 else want - CapFrom(info, s, 0)
  }

  lemma ServedStart(info: seq<HugepageInfo>, share: seq<nat>, columns: seq<seq<nat>>)
    requires |columns| == |share|
    requires forall t :: 0 <= t < |share| ==> |columns[t]| == |info| && forall i :: 0 <= i < |info| ==>
            columns[t][i] == 0
    ensures ServedTo(info, share, columns, 0)
  {
  }

  lemma ServedStep(info: seq<HugepageInfo>, share: seq<nat>, was: seq<seq<nat>>, now: seq<seq<nat>>, s: nat, left: nat)
    requires s < |share|
    requires ServedTo(info, share, was, s) && OthersKept(now, was, s)
    requires Served(info, s, share[s], now[s], left)
    ensures left == Left(info, s, share[s]) <= share[s]
    ensures ServedTo(info, share, now, s + 1)
    ensures PagesOn(now, s + 1) == PagesOn(was, s) + Sum(now[s])
  {
    hide CapFrom, Sum;
    PagesKept(was, now, s);
    hide Tight, Bytes;
  }

  lemma {:induction false} PagesKept(was: seq<seq<nat>>, now: seq<seq<nat>>, n: nat)
    requires n <= |was| == |now| && forall t :: 0 <= t < n ==> was[t] == now[t]
    ensures PagesOn(was, n) == PagesOn(now, n)
  {
    if n > 0 {
      PagesKept(was, now, n - 1);
    }
  }

  lemma NothingServed(info: seq<HugepageInfo>, s: nat, taken: seq<nat>)
    requires |taken| == |info| && forall i :: 0 <= i < |info| ==> taken[i] == 0 && info[i].size > 0
    ensures Served(info, s, 0, taken, 0)
  {
    BytesZero(info, taken);
    hide CapFrom, Bytes, TakesAt;
    InOrderEnd(info, s, 0, taken, 0);
  }

  /** The sockets that were not reached were asked for nothing, and have given nothing. */
  lemma {:induction false} ServedRest(info: seq<HugepageInfo>, share: seq<nat>, columns: seq<seq<nat>>, s: nat)
    requires s <= |share|
    requires ServedTo(info, share, columns, s) && forall t :: s <= t < |share| ==> share[t] == 0
    requires forall i :: 0 <= i < |info| ==> info[i].size > 0
    ensures ServedTo(info, share, columns, |share|) && PagesOn(columns, |share|) == PagesOn(columns, s)
    decreases |share| - s
  {
    hide Served, PagesOn, ServedTo, Sum;
    if s < |share| {
      PassOver(info, share, columns, s);
      ServedRest(info, share, columns, s + 1);
    }
  }

  lemma PassOver(info: seq<HugepageInfo>, share: seq<nat>, columns: seq<seq<nat>>, s: nat)
    requires s < |share| && share[s] == 0 && ServedTo(info, share, columns, s)
    requires forall i :: 0 <= i < |info| ==> info[i].size > 0
    ensures ServedTo(info, share, columns, s + 1) && PagesOn(columns, s + 1) == PagesOn(columns, s)
  {
    hide Served, CapFrom, Sum;
    SumZero(columns[s]);
    NothingServed(info, s, columns[s]);
  }

  ghost predicate Fresh(columns: seq<seq<nat>>, sizes: nat) {
    forall t :: 0 <= t < |columns| ==> |columns[t]| == sizes && forall i :: 0 <= i < sizes ==> columns[t][i] == 0
  }

  /** The bytes that the first n sockets give of what they are asked for. */
  ghost function Given(info: seq<HugepageInfo>, share: seq<nat>, n: nat): nat
    requires n <= |share|
  {
    if n == 0 then 0 else Given(info, share, n - 1) + (share[n - 1] - Left(info, n - 1, share[n - 1]))
  }

  /**
   The configured memory is used up, for the first time, after n sockets, and none of them with
   an amount of its own was left short.
   */
  ghost predicate UsedUp(info: seq<HugepageInfo>, share: seq<nat>, socketMem: seq<nat>, cfgMemory: nat, n: nat) {
    n <= |share| == |socketMem| && Given(info, share, n) == cfgMemory && NotYet(info, share, socketMem, cfgMemory, n)
  }

  ghost predicate NotYet(info: seq<HugepageInfo>, share: seq<nat>, socketMem: seq<nat>, cfgMemory: nat, n: nat)
    requires n <= |share| == |socketMem|
  {
    forall t :: 0 <= t < n ==> Given(info, share, t) != cfgMemory && !ShortAt(info, share, socketMem, t)
  }

  ghost predicate ShortAt(info: seq<HugepageInfo>, share: seq<nat>, socketMem: seq<nat>, t: nat)
    requires t < |share| == |socketMem|
  {
    Left(info, t, share[t]) > 0 && socketMem[t] != 0
  }

  lemma {:induction false} GivenSum(info: seq<HugepageInfo>, share: seq<nat>, n: nat)
    requires n <= |share|
    ensures Given(info, share, n) <= Sum(share[..n])
    ensures Given(info, share, n) == Sum(share[..n]) <==> !Overdrawn(info, share, n)
  {
    hide CapFrom;
    SumNone(share);
    if n > 0 {
      GivenSum(info, share, n - 1);
      SumTake(share, n - 1);
      hide Sum;
      assert share[n - 1] <= CapFrom(info, n - 1, 0) <==> Left(info, n - 1, share[n - 1]) == 0;
    }
  }

  /** If the shares do not exceed the memory, it is used up exactly if they amount to it and each can be met. */
  lemma UsedUpWithin(info: seq<HugepageInfo>, share: seq<nat>, socketMem: seq<nat>, cfgMemory: nat)
    requires Sum(share) <= cfgMemory && |socketMem| == |share|
    ensures (exists n: nat :: UsedUp(info, share, socketMem, cfgMemory, n)) <==>
            Sum(share) == cfgMemory && !Overdrawn(info, share, |share|)
    ensures forall n: nat :: UsedUp(info, share, socketMem, cfgMemory, n) ==>
              !Overdrawn(info, share, n) && forall t :: n <= t < |share| ==> share[t] == 0
  {
    hide CapFrom, Sum, Given, Overdrawn;
    FullPrefix(share);
    GivenSum(info, share, |share|);
    forall n: nat | UsedUp(info, share, socketMem, cfgMemory, n)
      ensures Sum(share) == cfgMemory && !Overdrawn(info, share, n) && forall t :: n <= t < |share| ==> share[t] == 0
      ensures !Overdrawn(info, share, |share|)
    {
      GivenSum(info, share, n);
      SumPrefix(share, n);
      RestMet(info, share, n);
    }
    if Sum(share) == cfgMemory && !Overdrawn(info, share, |share|) {
      FirstUp(info, share, socketMem, cfgMemory, |share|);
    }
  }

  lemma RestMet(info: seq<HugepageInfo>, share: seq<nat>, n: nat)
    requires n <= |share| && !Overdrawn(info, share, n) && forall t :: n <= t < |share| ==> share[t] == 0
    ensures !Overdrawn(info, share, |share|)
  {
    hide CapFrom;
  }

  lemma {:induction false} FirstUp(info: seq<HugepageInfo>, share: seq<nat>, socketMem: seq<nat>, cfgMemory: nat,
                                   n: nat)
    requires n <= |share| == |socketMem| && Given(info, share, n) == cfgMemory && !Overdrawn(info, share, n)
    ensures exists k: nat :: UsedUp(info, share, socketMem, cfgMemory, k)
  {
    hide CapFrom, Given;
    if t :| 0 <= t < n && Given(info, share, t) == cfgMemory {
      FirstUp(info, share, socketMem, cfgMemory, t);
    } else {
      assert UsedUp(info, share, socketMem, cfgMemory, n);
    }
  }

  /**
   The loop over the sockets; `stop` is how many were served. The memory still wanted is an
   unsigned number in the code; as a difference of amounts below 2^64 it is zero exactly if the
   difference is.
   */
  method ServeSockets(cfgMemory: nat, socketMem: seq<nat>, info: seq<HugepageInfo>, memory: array<nat>,
                      used: array<seq<nat>>,
                      ghost share: seq<nat>) returns (r: int, ghost stop: nat)
    requires WellFormed(info, memory.Length) && used.Length == memory.Length == |socketMem|
    requires Fresh(used[..], |info|) && share == memory[..]
    modifies memory, used
    ensures r == -1 <==> !exists n: nat :: UsedUp(info, share, socketMem, cfgMemory, n)
    ensures r != -1 ==> stop <= |share| && UsedUp(info, share, socketMem, cfgMemory, stop)
    ensures r != -1 ==> r == PagesOn(used[..], stop) && ServedTo(info, share, used[..], stop)
  {
    hide CapFrom, Sum, Served, ServedTo, PagesOn, Left, Total, UsedUp, NotYet, Given, Serving;
    ServedStart(info, share, used[..]);
    var totalMem: int, totalNumPages, s := cfgMemory, 0, 0;
    FirstRound(info, share, socketMem, cfgMemory, used[..]);
    while s < memory.Length && totalMem != 0
      invariant s <= memory.Length && Serving(info, share, socketMem, cfgMemory, used[..], s, totalMem, totalNumPages)
      invariant forall t :: s <= t < memory.Length ==> memory[t] == share[t]
    {
      ghost var was := used[..];
      RowEmpty(info, share, socketMem, cfgMemory, was, s, totalMem, totalNumPages);
      var row, left, pages := TakePages(info, s, memory[s], used[s]);
      used[s] := row;
      Round(info, share, socketMem, cfgMemory, was, used[..], s, totalMem, totalNumPages, left, pages);
      totalMem := totalMem - (memory[s] - left);
      memory[s] := left;
      totalNumPages := totalNumPages + pages;
      if memory[s] > 0 && socketMem[s] != 0 {
        return -1, s;
      }
      s := s + 1;
    }
    AtEnd(info, share, socketMem, cfgMemory, used[..], s, totalMem, totalNumPages);
    if totalMem != 0 {
      return -1, s;
    }
    return totalNumPages, s;
  }

  /** Where the loop stands when it comes to socket s. */
  ghost predicate Serving(info: seq<HugepageInfo>, share: seq<nat>, socketMem: seq<nat>, cfgMemory: nat,
                          columns: seq<seq<nat>>, s: nat, totalMem: int, totalNumPages: nat)
    requires s <= |share| == |socketMem|
  {
    && ServedTo(info, share, columns, s) && totalNumPages == PagesOn(columns, s)
    && totalMem == cfgMemory - Given(info, share, s) && NotYet(info, share, socketMem, cfgMemory, s)
  }

  lemma FirstRound(info: seq<HugepageInfo>, share: seq<nat>, socketMem: seq<nat>, cfgMemory: nat,
                   columns: seq<seq<nat>>)
    requires |share| == |socketMem| && ServedTo(info, share, columns, 0)
    ensures Serving(info, share, socketMem, cfgMemory, columns, 0, cfgMemory, 0)
  {
    hide ServedTo;
  }

  lemma RowEmpty(info: seq<HugepageInfo>, share: seq<nat>, socketMem: seq<nat>, cfgMemory: nat,
                 columns: seq<seq<nat>>, s: nat, totalMem: int, totalNumPages: nat)
    requires s < |share| == |socketMem|
    requires Serving(info, share, socketMem, cfgMemory, columns, s, totalMem, totalNumPages)
    ensures |columns| == |share| && |columns[s]| == |info| && forall i :: 0 <= i < |info| ==> columns[s][i] == 0
  {
    NotReached(info, share, columns, s);
  }

  /** One socket more is served; if it is left short though it has an amount of its own, the call has failed. */
  lemma Round(info: seq<HugepageInfo>, share: seq<nat>, socketMem: seq<nat>, cfgMemory: nat, was: seq<seq<nat>>,
              now: seq<seq<nat>>,
              s: nat, totalMem: int, totalNumPages: nat, left: nat, pages: nat)
    requires s < |share| == |socketMem|
    requires Serving(info, share, socketMem, cfgMemory, was, s, totalMem, totalNumPages) && totalMem != 0
    requires OthersKept(now, was, s) && Served(info, s, share[s], now[s], left) && pages == Sum(now[s])
    ensures left <= share[s]
    ensures left > 0 && socketMem[s] != 0 ==> forall n: nat :: !UsedUp(info, share, socketMem, cfgMemory, n)
    ensures left == 0 || socketMem[s] == 0 ==>
              Serving(info, share, socketMem, cfgMemory, now, s + 1, totalMem - (share[s] - left),
                totalNumPages + pages)
  {
    hide CapFrom, Sum, Served, ServedTo, PagesOn, OthersKept, Left, UsedUp, NotYet, Given;
    ServedStep(info, share, was, now, s, left);
    GivenStep(info, share, socketMem, cfgMemory, s);
  }

  lemma GivenStep(info: seq<HugepageInfo>, share: seq<nat>, socketMem: seq<nat>, cfgMemory: nat, s: nat)
    requires s < |share| == |socketMem| && NotYet(info, share, socketMem, cfgMemory, s)
    requires Given(info, share, s) != cfgMemory
    ensures Left(info, s, share[s]) <= share[s]
    ensures Given(info, share, s + 1) == Given(info, share, s) + share[s] - Left(info, s, share[s])
    ensures if Left(info, s, share[s]) > 0 && socketMem[s] != 0
            then forall n: nat :: !UsedUp(info, share, socketMem, cfgMemory, n)
            else NotYet(info, share, socketMem, cfgMemory, s + 1)
  {
    hide CapFrom;
    assert ShortAt(info, share, socketMem, s) <==> Left(info, s, share[s]) > 0 && socketMem[s] != 0;
    hide Left, ShortAt;
  }

  lemma AtEnd(info: seq<HugepageInfo>, share: seq<nat>, socketMem: seq<nat>, cfgMemory: nat,
              columns: seq<seq<nat>>, s: nat, totalMem: int, totalNumPages: nat)
    requires s <= |share| == |socketMem|
    requires Serving(info, share, socketMem, cfgMemory, columns, s, totalMem, totalNumPages)
    ensures totalMem == 0 ==>
            UsedUp(info, share, socketMem, cfgMemory, s) && totalNumPages == PagesOn(columns, s)
            && ServedTo(info, share, columns, s)
    ensures totalMem != 0 && s == |share| ==> forall n: nat :: !UsedUp(info, share, socketMem, cfgMemory, n)
  {
    hide Given, ShortAt, ServedTo, PagesOn;
  }

  /**
   calc_num_pages_per_socket; `share` is what each socket is asked for once the memory is split,
   `stop` how many sockets were served.
   */
  method CalcNumPagesPerSocket(cfgMemory: nat, forceSockets: bool, socketMem: seq<nat>, lcores: seq<nat>,
                               info: seq<HugepageInfo>, memory: array<nat>, used: array<seq<nat>>)
    returns (r: int, ghost share: seq<nat>, ghost stop: nat)
    requires WellFormed(info, memory.Length) && used.Length == memory.Length == |socketMem|
    requires |lcores| > 0 && forall l :: 0 <= l < |lcores| ==> lcores[l] < memory.Length
    requires !forceSockets ==> forall s :: 0 <= s < memory.Length ==> memory[s] == 0
    requires Fresh(used[..], |info|)
    modifies memory, used
    ensures |share| == memory.Length
    ensures forceSockets ==> share == old(memory[..])
    ensures !forceSockets && |info| > 0 ==>
            Sum(share) == Min(cfgMemory, Total(info, memory.Length)) && SplitByCores(info, lcores, cfgMemory, share)
    ensures r == -1 <==> |info| == 0 || !exists n: nat :: UsedUp(info, share, socketMem, cfgMemory, n)
    ensures r != -1 ==> UsedUp(info, share, socketMem, cfgMemory, stop)
    ensures r != -1 ==> r == PagesOn(used[..], stop) && ServedTo(info, share, used[..], stop)
    ensures |info| > 0 && Sum(share) <= cfgMemory ==>
            (r == -1 <==> Sum(share) < cfgMemory || Overdrawn(info, share, |share|))
    ensures !forceSockets ==> (r == -1 <==> |info| == 0 || cfgMemory > Total(info, memory.Length))
    ensures r != -1 && Sum(share) <= cfgMemory ==>
            r == PagesOn(used[..], |share|) && ServedTo(info, share, used[..], |share|)
  {
    hide CapFrom, Sum, Served, ServedTo, PagesOn, Fresh, Total, Overdrawn, UsedUp, ByCores;
    share, stop := memory[..], 0;
    if |info| == 0 {
      return -1, share, 0;
    }
    if !forceSockets {
      var totalSize := SpreadByCores(info, lcores, cfgMemory, memory);
      CoresWithin(info, lcores, cfgMemory);
      totalSize := SpreadRest(info, totalSize, memory);
      share := memory[..];
      NotOverdrawn(info, share);
    }
    r, stop := ServeSockets(cfgMemory, socketMem, info, memory, used, share);
    if Sum(share) <= cfgMemory {
      UsedUpWithin(info, share, socketMem, cfgMemory);
      if r != -1 {
        AllServed(info, share, used[..], stop);
      }
    }
  }

  lemma CoresWithin(info: seq<HugepageInfo>, lcores: seq<nat>, requested: nat)
    requires |lcores| > 0
    ensures forall t: nat :: ByCores(info, lcores, requested, t) <= CapFrom(info, t, 0)
  {
    hide CapFrom, Share;
  }

  lemma NotOverdrawn(info: seq<HugepageInfo>, share: seq<nat>)
    requires forall t :: 0 <= t < |share| ==> share[t] <= CapFrom(info, t, 0)
    ensures !Overdrawn(info, share, |share|)
  {
    hide CapFrom;
  }

  /** When no socket was left short and the others were asked for nothing, all are served. */
  lemma AllServed(info: seq<HugepageInfo>, share: seq<nat>, columns: seq<seq<nat>>, stop: nat)
    requires stop <= |share| && ServedTo(info, share, columns, stop)
    requires forall t :: stop <= t < |share| ==> share[t] == 0
    requires forall i :: 0 <= i < |info| ==> info[i].size > 0
    ensures ServedTo(info, share, columns, |share|) && PagesOn(columns, |share|) == PagesOn(columns, stop)
  {
    hide Served, PagesOn;
    ServedRest(info, share, columns, stop);
  }

  lemma FullPrefix(a: seq<nat>)
    ensures a[..|a|] == a
  {
  }

  lemma NotReached(info: seq<HugepageInfo>, share: seq<nat>, columns: seq<seq<nat>>, s: nat)
    requires s < |share| && ServedTo(info, share, columns, s)
    ensures |columns| == |share| && |columns[s]| == |info| && forall i :: 0 <= i < |info| ==> columns[s][i] == 0
  {
  }
}
