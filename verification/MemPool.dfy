/**
 The growing pool of fixed-size blocks: the free list is kept inside the free blocks, and each
 page ends with its own header. Memory is bytes; a pointer in memory is eight of them.
 */
module MemPool {
  import opened Powers

  const PTR_SIZE: int := 8
  const HEADER: int := 24
  const NULL: nat := 0
  /** How many addresses there are. */
  const ADDRS: int := 0x1_0000_0000_0000_0000

  type Byte = b: int | 0 <= b < 256

  type Memory = map<int, Byte>

  // ---------------------------------------------------------------- pointers in memory

  /** The j-th byte of a number, the lowest first. */
  function ByteOf(p: nat, j: nat): Byte {
    if j == 0 then p % 256 else ByteOf(p / 256, j - 1)
  }

  function StorePtr(m: Memory, a: int, p: nat): Memory {
    m[a := ByteOf(p, 0)][a + 1 := ByteOf(p, 1)][a + 2 := ByteOf(p, 2)][a + 3 := ByteOf(p, 3)]
     [a + 4 := ByteOf(p, 4)][a + 5 := ByteOf(p, 5)][a + 6 := ByteOf(p, 6)][a + 7 := ByteOf(p, 7)]
  }

  /** The bytes of p are stored at a. */
  ghost predicate Loads(m: Memory, a: int, p: nat) {
    forall j :: a <= j < a + PTR_SIZE ==> j in m && m[j] == ByteOf(p, j - a)
  }

  /** The number whose n bytes are stored at a; memory that was never written reads as 0. */
  function LoadBytes(m: Memory, a: int, n: nat): nat
    decreases n
  {
    if n == 0 then 0 else (if a in m then m[a] else 0) + 256 * LoadBytes(m, a + 1, n - 1)
  }

  function LoadPtr(m: Memory, a: int): nat { LoadBytes(m, a, PTR_SIZE) }

  ghost function Pow256(n: nat): (r: nat)
    ensures r > 0
  {
    if n == 0 then 1 else 256 * Pow256(n - 1)
  }

  lemma {:induction false} BytesAre(m: Memory, a: int, p: nat, n: nat)
    requires forall j :: a <= j < a + n ==> j in m && m[j] == ByteOf(p, j - a)
    requires p < Pow256(n)
    ensures LoadBytes(m, a, n) == p
    decreases n
  {
    if n > 0 {
      assert m[a] == ByteOf(p, a - a);
      forall j | a + 1 <= j < a + 1 + (n - 1)
        ensures j in m && m[j] == ByteOf(p / 256, j - (a + 1))
      {
        assert ByteOf(p, j - a) == ByteOf(p / 256, j - a - 1);
      }
      BytesAre(m, a + 1, p / 256, n - 1);
    }
  }

  lemma Addresses()
    ensures Pow256(PTR_SIZE) == ADDRS
  {
    assert Pow256(2) == 0x1_0000 && Pow256(4) == 0x1_0000_0000 && Pow256(6) == 0x1_0000_0000_0000;
  }

  /** A pointer that is stored reads back. */
  lemma LoadIs(m: Memory, a: int, p: nat)
    requires Loads(m, a, p) && p < ADDRS
    ensures LoadPtr(m, a) == p
  {
    Addresses();
    hide ByteOf, Pow256, LoadBytes;
    BytesAre(m, a, p, PTR_SIZE);
  }

  lemma Stored(m: Memory, a: int, p: nat)
    ensures Loads(StorePtr(m, a, p), a, p)
    ensures forall x :: x < a || a + PTR_SIZE <= x ==> (x in StorePtr(m, a, p) <==> x in m)
    ensures forall x :: (x < a || a + PTR_SIZE <= x) && x in m ==> StorePtr(m, a, p)[x] == m[x]
  {
    hide ByteOf;
  }

  /** The pointer cells in use hold what they should, and do not overlap. */
  ghost predicate Holds(m: Memory, cells: map<int, nat>) {
    && (forall a :: a in cells ==> Loads(m, a, cells[a]) && cells[a] < ADDRS)
    && (forall a, b :: a in cells && b in cells && a < b ==> a + PTR_SIZE <= b)
  }

  /** Cell a, old or new, is clear of every other cell. */
  ghost predicate Clear(cells: map<int, nat>, a: int) {
    forall b :: b in cells && b != a ==> a + PTR_SIZE <= b || b + PTR_SIZE <= a
  }

  lemma StoreCell(m: Memory, cells: map<int, nat>, a: int, p: nat)
    requires Holds(m, cells) && Clear(cells, a) && p < ADDRS
    ensures Holds(StorePtr(m, a, p), cells[a := p])
  {
    var m', cells' := StorePtr(m, a, p), cells[a := p];
    Stored(m, a, p);
    hide StorePtr;
    forall b | b in cells'
      ensures Loads(m', b, cells'[b])
    {
      if b != a {
        assert Loads(m, b, cells[b]);
      }
    }
  }

  lemma DropCell(m: Memory, cells: map<int, nat>, a: int)
    requires Holds(m, cells)
    ensures Holds(m, cells - {a})
  {
    hide Loads;
  }

  // ---------------------------------------------------------------- pages and blocks

  datatype Page = Page(beg: nat, count: nat)

  /** The n-th block of a page that begins at `beg`. */
  function Nth(beg: nat, bs: nat, n: nat): nat { beg + bs * n }

  /** Where the blocks end and the header is. */
  function End(p: Page, bs: nat): nat { Nth(p.beg, bs, p.count) }

  ghost predicate BlockOf(p: Page, bs: nat, b: int)
    requires bs > 0
  {
    p.beg <= b < End(p, bs) && (b - p.beg) % bs == 0
  }

  /** A block lies wholly within its page, and two blocks do not overlap. */
  lemma BlockInside(p: Page, bs: nat, b: int)
    requires bs > 0 && BlockOf(p, bs, b)
    ensures p.beg <= b && b + bs <= End(p, bs)
  {
    EndMultiple(p, bs);
    var e := End(p, bs);
    hide End;
    if b + bs > e {
      ModApart(e - p.beg, b - p.beg, bs);
    }
  }

  lemma EndMultiple(p: Page, bs: nat)
    requires bs > 0
    ensures (End(p, bs) - p.beg) % bs == 0 && End(p, bs) >= p.beg
  {
    ModAdd(p.count, bs, 0);
    assert bs * p.count == p.count * bs + 0;
  }

  lemma BlocksApart(p: Page, bs: nat, a: int, b: int)
    requires bs > 0 && BlockOf(p, bs, a) && BlockOf(p, bs, b) && a < b
    ensures a + bs <= b
  {
    hide End;
    if a + bs > b {
      ModApart(b - p.beg, a - p.beg, bs);
    }
  }

  /** Pages are in the address space, and apart. */
  ghost predicate PagesApart(pages: seq<Page>, bs: nat) {
    && (forall i :: 0 <= i < |pages| ==> pages[i].beg > 0 && pages[i].count >= 1 && End(pages[i], bs) + HEADER <= ADDRS)
    && (forall i, j :: 0 <= i < |pages| && 0 <= j < |pages| && i != j ==>
          End(pages[i], bs) + HEADER <= pages[j].beg || End(pages[j], bs) + HEADER <= pages[i].beg)
  }

  ghost predicate IsBlock(pages: seq<Page>, bs: nat, b: int)
    requires bs > 0
  {
    exists i :: 0 <= i < |pages| && BlockOf(pages[i], bs, b)
  }

  /** Cell c belongs to the header of a page. */
  ghost predicate IsHeader(pages: seq<Page>, bs: nat, c: int) {
    exists i :: 0 <= i < |pages| && (c == End(pages[i], bs) || c == End(pages[i], bs) + 8
      || c == End(pages[i], bs) + 16)
  }

  /** Blocks keep clear of each other and of the headers. */
  lemma BlocksClear(pages: seq<Page>, bs: nat, a: int, b: int)
    requires bs > 0 && PagesApart(pages, bs) && IsBlock(pages, bs, a) && IsBlock(pages, bs, b) && a < b
    ensures a + bs <= b
  {
    var i :| 0 <= i < |pages| && BlockOf(pages[i], bs, a);
    var j :| 0 <= j < |pages| && BlockOf(pages[j], bs, b);
    BlockInside(pages[i], bs, a);
    BlockInside(pages[j], bs, b);
    if i == j {
      BlocksApart(pages[i], bs, a, b);
    }
    hide BlockOf, End;
  }

  lemma HeaderClear(pages: seq<Page>, bs: nat, b: int, c: int)
    requires bs > 0 && PagesApart(pages, bs) && IsBlock(pages, bs, b) && IsHeader(pages, bs, c)
    ensures b + bs <= c || c + PTR_SIZE <= b
  {
    var i :| 0 <= i < |pages| && BlockOf(pages[i], bs, b);
    var j :| 0 <= j < |pages| && (c == End(pages[j], bs) || c == End(pages[j], bs) + 8 || c == End(pages[j], bs) + 16);
    BlockInside(pages[i], bs, b);
    EndMultiple(pages[i], bs);
    EndMultiple(pages[j], bs);
    assert i != j ==> End(pages[i], bs) + HEADER <= pages[j].beg || End(pages[j], bs) + HEADER <= pages[i].beg;
    hide BlockOf, End, PagesApart, IsBlock, IsHeader;
  }

  // ---------------------------------------------------------------- the pool on values

  /** The pages, newest first; the free blocks in the order of the chain; the blocks that clients hold; the cells. */
  datatype Shape = Shape(pages: seq<Page>, free: seq<nat>, held: set<nat>, cells: map<int, nat>)

  ghost function HeadOf(free: seq<nat>): nat { if free == [] then NULL else free[0] }

  ghost function PageAt(pages: seq<Page>, bs: nat, i: nat): nat { if i < |pages| then End(pages[i], bs) else NULL }

  /** Free block i points at the next one, or at none. */
  ghost predicate Linked(cells: map<int, nat>, free: seq<nat>, i: nat)
    requires i < |free|
  {
    free[i] > 0 && free[i] in cells && cells[free[i]] == if i + 1 < |free| then free[i + 1] else NULL
  }

  /** The chain of free blocks. */
  ghost predicate Chain(cells: map<int, nat>, free: seq<nat>) {
    && (forall i :: 0 <= i < |free| ==> Linked(cells, free, i))
    && (forall i, j :: 0 <= i < j < |free| ==> free[i] != free[j])
  }

  /** A header: where the blocks begin, where they end, the next page. */
  ghost predicate HeaderIs(cells: map<int, nat>, h: nat, beg: nat, next: nat) {
    && h in cells && h + 8 in cells && h + 16 in cells
    && cells[h] == beg && cells[h + 8] == h && cells[h + 16] == next
  }

  /** The chain of pages. */
  ghost predicate PageChain(cells: map<int, nat>, pages: seq<Page>, bs: nat) {
    forall i :: 0 <= i < |pages| ==> HeaderIs(cells, PageAt(pages, bs, i), pages[i].beg, PageAt(pages, bs, i + 1))
  }

  /** Every block is free or held, never both, and no cell reaches into a held block. */
  ghost predicate Sorted(s: Shape, bs: nat)
    requires bs > 0
  {
    && (forall b :: b in s.free ==> IsBlock(s.pages, bs, b) && b !in s.held)
    && (forall b :: b in s.held ==> IsBlock(s.pages, bs, b))
    && (forall b :: IsBlock(s.pages, bs, b) ==> b in s.free || b in s.held)
    && (forall c :: c in s.cells ==> c in s.free || IsHeader(s.pages, bs, c))
  }

  ghost predicate Ok(s: Shape, bs: nat, mem: Memory) {
    && bs >= PTR_SIZE && PagesApart(s.pages, bs)
    && Holds(mem, s.cells) && Chain(s.cells, s.free) && PageChain(s.cells, s.pages, bs) && Sorted(s, bs)
  }

  /** No cell reaches into a block that is not free. */
  lemma HeldClear(s: Shape, bs: nat, mem: Memory, b: int, c: int)
    requires Ok(s, bs, mem) && b !in s.free && IsBlock(s.pages, bs, b) && c in s.cells
    ensures b + bs <= c || c + PTR_SIZE <= b
  {
    hide Holds, Chain, PageChain, PagesApart, IsBlock, IsHeader;
    if c in s.free {
      if b < c {
        BlocksClear(s.pages, bs, b, c);
      } else if c < b {
        BlocksClear(s.pages, bs, c, b);
      }
    } else {
      HeaderClear(s.pages, bs, b, c);
    }
  }

  /** A client writes a byte of a block it holds. */
  lemma ClientWrites(s: Shape, bs: nat, mem: Memory, b: int, x: int, v: Byte)
    requires Ok(s, bs, mem) && b in s.held && b <= x < b + bs
    ensures Ok(s, bs, mem[x := v])
  {
    forall c | c in s.cells
      ensures Loads(mem[x := v], c, s.cells[c])
    {
      HeldClear(s, bs, mem, b, c);
      assert Loads(mem, c, s.cells[c]);
    }
    hide Chain, PageChain, PagesApart, Sorted, Loads;
  }

  /** Where n loads through memory lead from p. */
  ghost function Follow(m: Memory, p: int, n: nat): int {
    if n == 0 then p else LoadPtr(m, Follow(m, p, n - 1))
  }

  /** The chain as it lies in memory: from the free pointer it visits each free block once and ends. */
  lemma {:induction false} ChainEnds(s: Shape, bs: nat, mem: Memory, n: nat)
    requires bs > 0 && Ok(s, bs, mem) && n <= |s.free|
    ensures Follow(mem, HeadOf(s.free), n) == if n < |s.free| then s.free[n] else NULL
    ensures n < |s.free| ==> s.free[n] != NULL && IsBlock(s.pages, bs, s.free[n]) && forall j :: 0 <= j < n ==>
            s.free[j] != s.free[n]
  {
    hide Ok, IsBlock, LoadPtr;
    if n > 0 {
      ChainEnds(s, bs, mem, n - 1);
      Chained(s, bs, mem, n - 1);
      LoadIs(mem, s.free[n - 1], s.cells[s.free[n - 1]]);
    }
    if n < |s.free| {
      Chained(s, bs, mem, n);
      BlocksAre(s, bs, mem, s.free[n]);
    }
  }

  lemma FreeInside(s: Shape, bs: nat, mem: Memory, b: nat)
    requires bs > 0 && Ok(s, bs, mem) && (b in s.free || b in s.held)
    ensures b + bs + HEADER <= ADDRS
  {
    assert IsBlock(s.pages, bs, b);
    var i :| 0 <= i < |s.pages| && BlockOf(s.pages[i], bs, b);
    BlockInside(s.pages[i], bs, b);
    assert End(s.pages[i], bs) + HEADER <= ADDRS;
    hide End;
  }

  lemma HeadInside(s: Shape, bs: nat, mem: Memory)
    requires bs > 0 && Ok(s, bs, mem)
    ensures HeadOf(s.free) < ADDRS
  {
    if s.free != [] {
      FreeInside(s, bs, mem, s.free[0]);
    }
  }

  ghost function Taken(s: Shape): Shape
    requires s.free != []
  {
    Shape(s.pages, s.free[1..], s.held + {s.free[0]}, s.cells - {s.free[0]})
  }

  /** Taking the first free block. */
  lemma TakeOk(s: Shape, bs: nat, mem: Memory)
    requires Ok(s, bs, mem) && s.free != []
    ensures Ok(Taken(s), bs, mem)
    ensures s.free[0] !in s.held && IsBlock(s.pages, bs, s.free[0])
    ensures LoadPtr(mem, s.free[0]) == HeadOf(s.free[1..]) && s.free[0] > 0 && HeadOf(s.free) == s.free[0]
    ensures var t := Taken(s);
            t.free == s.free[1..] && t.held == s.held + {s.free[0]} && t.pages == s.pages && |t.held| == |s.held| + 1
  {
    var b, t := s.free[0], Taken(s);
    DropCell(mem, s.cells, b);
    assert b in s.free && Linked(s.cells, s.free, 0);
    assert Loads(mem, b, s.cells[b]);
    LoadIs(mem, b, s.cells[b]);
    TakeChain(s.cells, s.free);
    TakePages(s, bs);
    hide Holds, Chain, PageChain, PagesApart, Loads, IsBlock, IsHeader;
    forall x | x in s.free
      ensures x == b || x in t.free
    {
      var i :| 0 <= i < |s.free| && s.free[i] == x;
      assert i > 0 ==> s.free[1..][i - 1] == x;
    }
    NotTwice(s.cells, s.free);
    assert forall x :: x in t.free ==> x in s.free;
  }

  lemma TakeChain(cells: map<int, nat>, free: seq<nat>)
    requires Chain(cells, free) && free != []
    ensures Chain(cells - {free[0]}, free[1..])
    ensures free[0] in cells && cells[free[0]] == HeadOf(free[1..])
  {
    var f := free[1..];
    assert Linked(cells, free, 0);
    forall i | 0 <= i < |f|
      ensures Linked(cells - {free[0]}, f, i)
    {
      assert Linked(cells, free, i + 1);
    }
  }

  lemma NotTwice(cells: map<int, nat>, free: seq<nat>)
    requires Chain(cells, free) && free != []
    ensures free[0] !in free[1..]
  {
  }

  lemma TakePages(s: Shape, bs: nat)
    requires bs >= PTR_SIZE && PagesApart(s.pages, bs) && PageChain(s.cells, s.pages, bs) && Sorted(s, bs)
    requires s.free != []
    ensures PageChain(s.cells - {s.free[0]}, s.pages, bs)
  {
    var b := s.free[0];
    assert b in s.free && IsBlock(s.pages, bs, b);
    hide IsBlock, PagesApart, Sorted, End;
    forall i | 0 <= i < |s.pages|
      ensures HeaderIs(s.cells - {b}, PageAt(s.pages, bs, i), s.pages[i].beg, PageAt(s.pages, bs, i + 1))
    {
      var h := PageAt(s.pages, bs, i);
      assert HeaderIs(s.cells, h, s.pages[i].beg, PageAt(s.pages, bs, i + 1));
      assert IsHeader(s.pages, bs, h) && IsHeader(s.pages, bs, h + 8) && IsHeader(s.pages, bs, h + 16);
      HeaderClear(s.pages, bs, b, h);
      HeaderClear(s.pages, bs, b, h + 8);
      HeaderClear(s.pages, bs, b, h + 16);
    }
  }

  ghost function Returned(s: Shape, b: nat): Shape {
    Shape(s.pages, [b] + s.free, s.held - {b}, s.cells[b := HeadOf(s.free)])
  }

  /** Giving back a held block. */
  lemma ReturnOk(s: Shape, bs: nat, mem: Memory, b: nat)
    requires Ok(s, bs, mem) && b in s.held
    ensures Ok(Returned(s, b), bs, StorePtr(mem, b, HeadOf(s.free)))
    ensures var t := Returned(s, b);
            t.pages == s.pages && t.free == [b] + s.free && t.held == s.held - {b} && |t.held| == |s.held| - 1
  {
    var t := Returned(s, b);
    HeadInside(s, bs, mem);
    assert b !in s.free;
    forall c | c in s.cells && c != b
      ensures b + PTR_SIZE <= c || c + PTR_SIZE <= b
    {
      HeldClear(s, bs, mem, b, c);
    }
    StoreCell(mem, s.cells, b, HeadOf(s.free));
    HeldFresh(s, bs, mem, b);
    ReturnChain(s.cells, s.free, b);
    hide Holds, Chain, PagesApart, IsBlock, IsHeader, StorePtr;
    assert forall x :: x in t.free <==> x == b || x in s.free;
    hide Sorted;
    ReturnPages(s.cells, s.pages, bs, b, HeadOf(s.free));
  }

  lemma HeldFresh(s: Shape, bs: nat, mem: Memory, b: nat)
    requires Ok(s, bs, mem) && b in s.held
    ensures b !in s.cells && b > 0 && b !in s.free
  {
    if b in s.cells {
      HeldClear(s, bs, mem, b, b);
    }
    var i :| 0 <= i < |s.pages| && BlockOf(s.pages[i], bs, b);
  }

  lemma ReturnChain(cells: map<int, nat>, free: seq<nat>, b: nat)
    requires Chain(cells, free) && b !in cells && b > 0
    ensures Chain(cells[b := HeadOf(free)], [b] + free)
  {
    var f, c := [b] + free, cells[b := HeadOf(free)];
    forall i | 0 <= i < |f|
      ensures Linked(c, f, i)
    {
      if i > 0 {
        assert Linked(cells, free, i - 1);
      }
    }
    forall i, j | 0 <= i < j < |f|
      ensures f[i] != f[j]
    {
      assert Linked(cells, free, j - 1);
    }
  }

  lemma ReturnPages(cells: map<int, nat>, pages: seq<Page>, bs: nat, b: nat, p: nat)
    requires PageChain(cells, pages, bs) && b !in cells
    ensures PageChain(cells[b := p], pages, bs)
  {
    hide End;
    forall i | 0 <= i < |pages|
      ensures HeaderIs(cells[b := p], PageAt(pages, bs, i), pages[i].beg, PageAt(pages, bs, i + 1))
    {
      assert HeaderIs(cells, PageAt(pages, bs, i), pages[i].beg, PageAt(pages, bs, i + 1));
    }
  }

  // ---------------------------------------------------------------- a new page

  lemma NthNext(beg: nat, bs: nat, n: nat)
    ensures Nth(beg, bs, n + 1) == Nth(beg, bs, n) + bs && Nth(beg, bs, 0) == beg
  {
  }

  lemma {:induction false} NthRises(beg: nat, bs: nat, i: nat, j: nat)
    requires i < j
    ensures Nth(beg, bs, i) + bs <= Nth(beg, bs, j)
    decreases j - i
  {
    NthNext(beg, bs, j - 1);
    hide Nth;
    if i < j - 1 {
      NthRises(beg, bs, i, j - 1);
    }
  }

  lemma NthIsBlock(p: Page, bs: nat, n: nat)
    requires bs > 0 && n < p.count
    ensures BlockOf(p, bs, Nth(p.beg, bs, n)) && End(p, bs) == Nth(p.beg, bs, p.count)
  {
    NthRises(p.beg, bs, n, p.count);
    ModAdd(n, bs, 0);
    assert bs * n == n * bs + 0;
    if n > 0 {
      NthRises(p.beg, bs, 0, n);
    }
    NthNext(p.beg, bs, n);
  }

  lemma BlockIsNth(p: Page, bs: nat, b: int) returns (n: nat)
    requires bs > 0 && BlockOf(p, bs, b)
    ensures n < p.count && b == Nth(p.beg, bs, n)
  {
    n := (b - p.beg) / bs;
    assert b - p.beg == bs * n;
    if n > p.count {
      NthRises(p.beg, bs, p.count, n);
    }
  }

  ghost function NewFree(beg: nat, bs: nat, n: nat): (f: seq<nat>)
    ensures |f| == n
  {
    seq(n, i requires 0 <= i < n => Nth(beg, bs, i))
  }

  /** The cells with the links of the first n blocks. */
  ghost function Links(cells: map<int, nat>, beg: nat, bs: nat, n: nat): map<int, nat> {
    if n == 0 then cells else Links(cells, beg, bs, n - 1)[Nth(beg, bs, n - 1) := Nth(beg, bs, n)]
  }

  lemma {:induction false} LinksAre(cells: map<int, nat>, beg: nat, bs: nat, n: nat)
    requires bs > 0
    ensures forall c :: c in Links(cells, beg, bs, n) <==> c in cells || exists i :: 0 <= i < n && c == Nth(beg, bs, i)
    ensures forall i :: 0 <= i < n ==> Links(cells, beg, bs, n)[Nth(beg, bs, i)] == Nth(beg, bs, i + 1)
    ensures forall c :: c in cells && (forall i :: 0 <= i < n ==> c != Nth(beg, bs, i)) ==>
            Links(cells, beg, bs, n)[c] == cells[c]
  {
    hide Nth;
    if n > 0 {
      LinksAre(cells, beg, bs, n - 1);
      forall i | 0 <= i < n - 1
        ensures Nth(beg, bs, i) != Nth(beg, bs, n - 1)
      {
        NthRises(beg, bs, i, n - 1);
      }
    }
  }

  /** No cell reaches into [lo, hi). */
  ghost predicate Outside(cells: map<int, nat>, lo: int, hi: int) {
    forall c :: c in cells ==> c + PTR_SIZE <= lo || hi <= c
  }

  /** The next block to be linked is clear of all cells. */
  lemma LinkClear(cells: map<int, nat>, beg: nat, bs: nat, count: nat, n: nat)
    requires bs >= PTR_SIZE && n < count && Outside(cells, beg, Nth(beg, bs, count))
    ensures Clear(Links(cells, beg, bs, n), Nth(beg, bs, n))
  {
    LinksAre(cells, beg, bs, n);
    var a := Nth(beg, bs, n);
    NthRises(beg, bs, n, count);
    if n > 0 {
      NthRises(beg, bs, 0, n);
    }
    NthNext(beg, bs, n);
    hide Nth;
    forall c | c in Links(cells, beg, bs, n) && c != a
      ensures a + PTR_SIZE <= c || c + PTR_SIZE <= a
    {
      if c !in cells {
        var i :| 0 <= i < n && c == Nth(beg, bs, i);
        NthRises(beg, bs, i, n);
      }
    }
  }

  /** The pool with a new page in front, when no block was free. */
  ghost function Grown(s: Shape, bs: nat, p: Page, cells: map<int, nat>): Shape {
    Shape([p] + s.pages, NewFree(p.beg, bs, p.count), s.held, cells)
  }

  ghost function WithHeader(cells: map<int, nat>, h: nat, beg: nat, next: nat): map<int, nat> {
    cells[h := beg][h + 8 := h][h + 16 := next]
  }

  lemma WithHeaderIs(cells: map<int, nat>, h: nat, beg: nat, next: nat)
    ensures forall c :: c in WithHeader(cells, h, beg, next) <==> c in cells || c == h || c == h + 8 || c == h + 16
    ensures forall c :: c in cells && c != h && c != h + 8 && c != h + 16 ==>
            WithHeader(cells, h, beg, next)[c] == cells[c]
    ensures HeaderIs(WithHeader(cells, h, beg, next), h, beg, next)
  {
  }

  /** The cells of the pool after a page was made and put in front. */
  ghost function GrownCells(cells: map<int, nat>, bs: nat, p: Page, next: nat): map<int, nat>
    requires p.count >= 1
  {
    Links(WithHeader(cells, End(p, bs), p.beg, next), p.beg, bs, p.count - 1)[Nth(p.beg, bs, p.count - 1) := NULL]
  }

  /** Fresh memory: it meets no page. */
  ghost predicate FreshAt(pages: seq<Page>, bs: nat, p: Page) {
    && p.beg > 0 && p.count >= 1 && End(p, bs) + HEADER <= ADDRS
    && forall i :: 0 <= i < |pages| ==> End(p, bs) + HEADER <= pages[i].beg || End(pages[i], bs) + HEADER <= p.beg
  }

  lemma FreshOutside(s: Shape, bs: nat, p: Page)
    requires bs >= PTR_SIZE && PagesApart(s.pages, bs) && Sorted(s, bs) && FreshAt(s.pages, bs, p)
    ensures Outside(s.cells, p.beg, End(p, bs) + HEADER)
  {
    forall c | c in s.cells
      ensures c + PTR_SIZE <= p.beg || End(p, bs) + HEADER <= c
    {
      if c in s.free {
        var i :| 0 <= i < |s.pages| && BlockOf(s.pages[i], bs, c);
        BlockInside(s.pages[i], bs, c);
        EndMultiple(s.pages[i], bs);
      } else {
        var i :| 0 <= i < |s.pages| && (c == End(s.pages[i], bs) || c == End(s.pages[i], bs) + 8
          || c == End(s.pages[i], bs) + 16);
        EndMultiple(s.pages[i], bs);
      }
    }
  }

  lemma GrownChain(cells: map<int, nat>, bs: nat, p: Page, next: nat)
    requires bs >= PTR_SIZE && p.count >= 1 && p.beg > 0
    ensures Chain(GrownCells(cells, bs, p, next), NewFree(p.beg, bs, p.count))
  {
    var base := WithHeader(cells, End(p, bs), p.beg, next);
    var f, g := NewFree(p.beg, bs, p.count), GrownCells(cells, bs, p, next);
    LinksAre(base, p.beg, bs, p.count - 1);
    hide Nth, Links, End, WithHeader;
    forall i, j | 0 <= i < j < |f|
      ensures f[i] != f[j]
    {
      NthRises(p.beg, bs, i, j);
    }
    forall i | 0 <= i < |f|
      ensures Linked(g, f, i)
    {
      NthNext(p.beg, bs, 0);
      if i > 0 {
        NthRises(p.beg, bs, 0, i);
      }
      if i < p.count - 1 {
        NthRises(p.beg, bs, i, p.count - 1);
      }
    }
  }

  /** What GrownCells holds: the new links, the new header, and the cells there were. */
  lemma GrownCellsAre(cells: map<int, nat>, bs: nat, p: Page, next: nat)
    requires bs >= PTR_SIZE && p.count >= 1 && Outside(cells, p.beg, End(p, bs) + HEADER)
    ensures var g := GrownCells(cells, bs, p, next);
      && (forall c :: c in g ==> c in cells || c == End(p, bs) || c == End(p, bs) + 8 || c == End(p, bs) + 16
                                 || exists i :: 0 <= i < p.count && c == Nth(p.beg, bs, i))
      && (forall c :: c in cells ==> c in g && g[c] == cells[c])
      && HeaderIs(g, End(p, bs), p.beg, next)
  {
    var e, n := End(p, bs), p.count - 1;
    var base := WithHeader(cells, e, p.beg, next);
    WithHeaderIs(cells, e, p.beg, next);
    LinksAre(base, p.beg, bs, n);
    NthIsBlock(p, bs, n);
    NthNext(p.beg, bs, n);
    NthNext(p.beg, bs, 0);
    forall i | 0 <= i <= n
      ensures p.beg <= Nth(p.beg, bs, i) && Nth(p.beg, bs, i) + bs <= e
    {
      NthRises(p.beg, bs, i, p.count);
      if i > 0 {
        NthRises(p.beg, bs, 0, i);
      }
    }
    hide Nth, End, Links, WithHeader;
    var g := GrownCells(cells, bs, p, next);
    assert forall c :: c in base && (c < p.beg || e <= c) ==> c in g && g[c] == base[c];
  }

  lemma GrownPages(s: Shape, bs: nat, p: Page, cells: map<int, nat>)
    requires PageChain(s.cells, s.pages, bs)
    requires forall c :: c in s.cells ==> c in cells && cells[c] == s.cells[c]
    requires HeaderIs(cells, End(p, bs), p.beg, PageAt(s.pages, bs, 0))
    ensures PageChain(cells, [p] + s.pages, bs)
  {
    hide End;
    var pages := [p] + s.pages;
    forall i | 0 <= i < |pages|
      ensures HeaderIs(cells, PageAt(pages, bs, i), pages[i].beg, PageAt(pages, bs, i + 1))
    {
      if i > 0 {
        assert HeaderIs(s.cells, PageAt(s.pages, bs, i - 1), s.pages[i - 1].beg, PageAt(s.pages, bs, i));
      }
    }
  }

  lemma GrownBlocks(s: Shape, bs: nat, p: Page, b: int)
    requires bs > 0
    ensures IsBlock([p] + s.pages, bs, b) <==> BlockOf(p, bs, b) || IsBlock(s.pages, bs, b)
  {
    var pages := [p] + s.pages;
    hide BlockOf;
    if IsBlock(s.pages, bs, b) {
      var i :| 0 <= i < |s.pages| && BlockOf(s.pages[i], bs, b);
      assert pages[i + 1] == s.pages[i];
    }
    if BlockOf(p, bs, b) {
      assert pages[0] == p;
    }
  }

  lemma GrownHeader(s: Shape, bs: nat, p: Page, c: int)
    requires IsHeader(s.pages, bs, c) || c == End(p, bs) || c == End(p, bs) + 8 || c == End(p, bs) + 16
    ensures IsHeader([p] + s.pages, bs, c)
  {
    var pages := [p] + s.pages;
    hide End;
    assert pages[0] == p;
    if IsHeader(s.pages, bs, c) {
      var i :| 0 <= i < |s.pages| && (c == End(s.pages[i], bs) || c == End(s.pages[i], bs) + 8
        || c == End(s.pages[i], bs) + 16);
      assert pages[i + 1] == s.pages[i];
    }
  }

  lemma NewFreeAre(p: Page, bs: nat, b: int)
    requires bs > 0
    ensures b in NewFree(p.beg, bs, p.count) <==> BlockOf(p, bs, b)
  {
    var f := NewFree(p.beg, bs, p.count);
    if b in f {
      var i :| 0 <= i < |f| && f[i] == b;
      NthIsBlock(p, bs, i);
    }
    if BlockOf(p, bs, b) {
      var n := BlockIsNth(p, bs, b);
      assert f[n] == b;
    }
  }

  lemma GrownSorted(s: Shape, bs: nat, p: Page, cells: map<int, nat>)
    requires bs >= PTR_SIZE && Sorted(s, bs) && s.free == [] && FreshAt(s.pages, bs, p) && PagesApart(s.pages, bs)
    requires forall c :: c in cells ==> c in s.cells || c == End(p, bs) || c == End(p, bs) + 8 || c == End(p, bs) + 16
                                        || exists i :: 0 <= i < p.count && c == Nth(p.beg, bs, i)
    ensures Sorted(Grown(s, bs, p, cells), bs)
  {
    var g := Grown(s, bs, p, cells);
    forall b
      ensures IsBlock(g.pages, bs, b) <==> BlockOf(p, bs, b) || IsBlock(s.pages, bs, b)
      ensures b in g.free <==> BlockOf(p, bs, b)
      ensures BlockOf(p, bs, b) ==> b !in s.held
    {
      GrownBlocks(s, bs, p, b);
      NewFreeAre(p, bs, b);
      if b in s.held {
        NewApart(s, bs, p, b);
      }
    }
    hide BlockOf, IsBlock;
    forall c | c in cells
      ensures c in g.free || IsHeader(g.pages, bs, c)
    {
      if i :| 0 <= i < p.count && c == Nth(p.beg, bs, i) {
        assert g.free[i] == c;
      } else {
        GrownHeader(s, bs, p, c);
      }
    }
  }

  lemma NewApart(s: Shape, bs: nat, p: Page, b: int)
    requires bs > 0 && IsBlock(s.pages, bs, b) && FreshAt(s.pages, bs, p) && PagesApart(s.pages, bs)
    ensures !BlockOf(p, bs, b)
  {
    var i :| 0 <= i < |s.pages| && BlockOf(s.pages[i], bs, b);
    BlockInside(s.pages[i], bs, b);
    EndMultiple(p, bs);
    EndMultiple(s.pages[i], bs);
    hide End;
  }

  lemma GrownApart(s: Shape, bs: nat, p: Page)
    requires PagesApart(s.pages, bs) && FreshAt(s.pages, bs, p)
    ensures PagesApart([p] + s.pages, bs)
  {
    hide End;
  }

  lemma GrownOk(s: Shape, bs: nat, mem: Memory, p: Page, mem': Memory)
    requires Ok(s, bs, mem) && s.free == [] && FreshAt(s.pages, bs, p)
    requires Holds(mem', GrownCells(s.cells, bs, p, PageAt(s.pages, bs, 0)))
    ensures Ok(Grown(s, bs, p, GrownCells(s.cells, bs, p, PageAt(s.pages, bs, 0))), bs, mem')
    ensures |NewFree(p.beg, bs, p.count)| == p.count && HeadOf(NewFree(p.beg, bs, p.count)) == p.beg
  {
    var next := PageAt(s.pages, bs, 0);
    var cells := GrownCells(s.cells, bs, p, next);
    FreshOutside(s, bs, p);
    GrownCellsAre(s.cells, bs, p, next);
    GrownChain(s.cells, bs, p, next);
    GrownPages(s, bs, p, cells);
    GrownSorted(s, bs, p, cells);
    GrownApart(s, bs, p);
    NthNext(p.beg, bs, 0);
    hide GrownCells, End, Nth, Chain, PageChain, Sorted, PagesApart, Holds;
  }

  lemma {:induction false} LinksAside(cells: map<int, nat>, beg: nat, bs: nat, n: nat, h: nat, v: nat)
    requires forall i :: 0 <= i < n ==> Nth(beg, bs, i) != h
    ensures Links(cells[h := v], beg, bs, n) == Links(cells, beg, bs, n)[h := v]
  {
    hide Nth;
    if n > 0 {
      LinksAside(cells, beg, bs, n - 1, h, v);
    }
  }

  /** Setting the next page afterwards comes to the same. */
  lemma NextAfter(cells: map<int, nat>, bs: nat, p: Page, next: nat)
    requires bs >= PTR_SIZE && p.count >= 1
    ensures GrownCells(cells, bs, p, NULL)[End(p, bs) + 16 := next] == GrownCells(cells, bs, p, next)
  {
    var e, n := End(p, bs), p.count - 1;
    forall i | 0 <= i <= n
      ensures Nth(p.beg, bs, i) != e + 16
    {
      NthRises(p.beg, bs, i, p.count);
      assert Nth(p.beg, bs, p.count) == e;
    }
    var base := WithHeader(cells, e, p.beg, NULL);
    LinksAside(base, p.beg, bs, n, e + 16, next);
    assert base[e + 16 := next] == WithHeader(cells, e, p.beg, next);
    hide Nth, End, Links, WithHeader;
  }

  /** Memory is the same outside [lo, hi). */
  ghost predicate SameOutside(m: Memory, m': Memory, lo: int, hi: int) {
    forall x :: x < lo || hi <= x ==> (x in m <==> x in m') && (x in m ==> m[x] == m'[x])
  }

  lemma StoreInside(m: Memory, m': Memory, lo: int, hi: int, a: int, p: nat)
    requires SameOutside(m, m', lo, hi) && lo <= a && a + PTR_SIZE <= hi
    ensures SameOutside(m, StorePtr(m', a, p), lo, hi)
  {
    Stored(m', a, p);
    hide StorePtr;
  }

  /** The three stores of a header. */
  function HeaderStores(m: Memory, h: nat, beg: nat): Memory {
    StorePtr(StorePtr(StorePtr(m, h, beg), h + 8, h), h + 16, NULL)
  }

  lemma StoreHeader(m: Memory, cells: map<int, nat>, lo: int, h: nat, beg: nat)
    requires Holds(m, cells) && Outside(cells, lo, h + HEADER) && lo <= h && beg < ADDRS && h < ADDRS
    ensures Holds(HeaderStores(m, h, beg), WithHeader(cells, h, beg, NULL))
  {
    hide Holds, StorePtr;
    StoreCell(m, cells, h, beg);
    var c1 := cells[h := beg];
    StoreCell(StorePtr(m, h, beg), c1, h + 8, h);
    var c2 := c1[h + 8 := h];
    StoreCell(StorePtr(StorePtr(m, h, beg), h + 8, h), c2, h + 16, NULL);
  }

  lemma HeaderInside(m: Memory, lo: int, h: nat, beg: nat)
    requires lo <= h
    ensures SameOutside(m, HeaderStores(m, h, beg), lo, h + HEADER)
  {
    hide StorePtr, SameOutside;
    SameSelf(m, lo, h + HEADER);
    StoreInside(m, m, lo, h + HEADER, h, beg);
    StoreInside(m, StorePtr(m, h, beg), lo, h + HEADER, h + 8, h);
    StoreInside(m, StorePtr(StorePtr(m, h, beg), h + 8, h), lo, h + HEADER, h + 16, NULL);
  }

  /** The bytes of the blocks that clients hold. */
  ghost predicate Kept(m: Memory, m': Memory, held: set<nat>, bs: nat) {
    forall b, x :: b in held && b <= x < b + bs ==> (x in m <==> x in m') && (x in m ==> m[x] == m'[x])
  }

  lemma KeptOutside(s: Shape, bs: nat, m: Memory, m': Memory, p: Page)
    requires bs >= PTR_SIZE && Sorted(s, bs) && PagesApart(s.pages, bs) && FreshAt(s.pages, bs, p)
    requires SameOutside(m, m', p.beg, End(p, bs) + HEADER)
    ensures Kept(m, m', s.held, bs)
  {
    forall b | b in s.held
      ensures b + bs <= p.beg || End(p, bs) + HEADER <= b
    {
      var i :| 0 <= i < |s.pages| && BlockOf(s.pages[i], bs, b);
      BlockInside(s.pages[i], bs, b);
      EndMultiple(s.pages[i], bs);
    }
    hide End, Sorted, PagesApart, FreshAt;
  }

  // ---------------------------------------------------------------- blocks smaller than a pointer

  /** A number with its lowest n bytes set to zero. */
  ghost function Cleared(p: nat, n: nat): nat { if n == 0 then p else 256 * Cleared(p / 256, n - 1) }

  /** What the lowest n bytes of a number are. */
  ghost function LowBytes(p: nat, n: nat): nat { p % Pow256(n) }

  lemma {:induction false} ClearedBytes(p: nat, n: nat, j: nat)
    ensures ByteOf(Cleared(p, n), j) == if j < n then 0 else ByteOf(p, j)
  {
    if n > 0 && j > 0 {
      ClearedBytes(p / 256, n - 1, j - 1);
    }
  }

  lemma {:induction false} ClearedIs(p: nat, n: nat)
    ensures Cleared(p, n) == p - p % Pow256(n)
  {
    if n > 0 {
      ClearedIs(p / 256, n - 1);
      ModBytes(p, Pow256(n - 1));
    }
  }

  lemma ModBytes(p: nat, b: nat)
    requires b > 0
    ensures p % (256 * b) == 256 * (p / 256 % b) + p % 256
  {
    var q, r := (p / 256) / b, (p / 256) % b;
    assert p / 256 == q * b + r;
    MulInto(256, q, b);
    ModUnique(p, 256 * b, q, 256 * r + p % 256);
  }

  /** The header without the bytes that the links of blocks smaller than a pointer run into. */
  ghost predicate HeaderRest(m: Memory, h: nat, beg: nat, bs: nat)
    requires bs < PTR_SIZE
  {
    && Loads(m, h + 8, h) && Loads(m, h + 16, NULL)
    && forall j :: h + PTR_SIZE - bs <= j < h + PTR_SIZE ==> j in m && m[j] == ByteOf(beg, j - h)
  }

  lemma SmallHeader(m: Memory, h: nat, beg: nat, bs: nat)
    requires bs < PTR_SIZE
    ensures HeaderRest(HeaderStores(m, h, beg), h, beg, bs)
  {
    Stored(m, h, beg);
    var m1 := StorePtr(m, h, beg);
    Stored(m1, h + 8, h);
    var m2 := StorePtr(m1, h + 8, h);
    Stored(m2, h + 16, NULL);
    hide StorePtr, ByteOf;
  }

  /** A link of such a block leaves the rest of the header alone. */
  lemma SmallLink(m: Memory, h: nat, beg: nat, bs: nat, a: nat, p: nat)
    requires bs < PTR_SIZE && HeaderRest(m, h, beg, bs) && a + bs <= h
    ensures HeaderRest(StorePtr(m, a, p), h, beg, bs)
  {
    Stored(m, a, p);
    hide StorePtr, ByteOf;
  }

  /** The last of them sets the other bytes of the header to zero. */
  lemma SmallBytes(m: Memory, h: nat, beg: nat, bs: nat)
    requires 0 < bs < PTR_SIZE && bs <= h && HeaderRest(m, h, beg, bs)
    ensures Loads(StorePtr(m, h - bs, NULL), h, Cleared(beg, PTR_SIZE - bs))
  {
    hide StorePtr, ByteOf, Cleared;
    var m' := StorePtr(m, h - bs, NULL);
    SmallLink(m, h, beg, bs, h - bs, NULL);
    Stored(m, h - bs, NULL);
    forall j | h <= j < h + PTR_SIZE
      ensures j in m' && m'[j] == ByteOf(Cleared(beg, PTR_SIZE - bs), j - h)
    {
      ClearedBytes(beg, PTR_SIZE - bs, j - h);
      if j < h + PTR_SIZE - bs {
        ZeroBytes(j - (h - bs));
      }
    }
  }

  lemma ClearedBelow(p: nat, n: nat)
    ensures Cleared(p, n) == p - LowBytes(p, n) && Cleared(p, n) <= p
  {
    ClearedIs(p, n);
    hide Cleared, Pow256;
  }

  lemma SmallRest(m: Memory, h: nat, beg: nat, bs: nat)
    requires 0 < bs < PTR_SIZE && bs <= h && HeaderRest(m, h, beg, bs)
    ensures var m' := StorePtr(m, h - bs, NULL); Loads(m', h + 8, h) && Loads(m', h + 16, NULL)
  {
    SmallLink(m, h, beg, bs, h - bs, NULL);
    hide StorePtr, Loads;
  }

  lemma SmallBlocks(m: Memory, h: nat, beg: nat, bs: nat)
    requires 0 < bs < PTR_SIZE && bs <= h < ADDRS && beg < ADDRS && HeaderRest(m, h, beg, bs)
    ensures var m' := StorePtr(m, h - bs, NULL);
      && LoadPtr(m', h) == beg - LowBytes(beg, PTR_SIZE - bs)
      && LoadPtr(m', h + 8) == h && LoadPtr(m', h + 16) == NULL
  {
    hide StorePtr, Loads, Cleared, LowBytes, LoadPtr, HeaderRest, ByteOf, LoadBytes;
    SmallRest(m, h, beg, bs);
    SmallBytes(m, h, beg, bs);
    var m' := StorePtr(m, h - bs, NULL);
    ClearedBelow(beg, PTR_SIZE - bs);
    LoadIs(m', h, Cleared(beg, PTR_SIZE - bs));
    LoadIs(m', h + 8, h);
    LoadIs(m', h + 16, NULL);
  }

  lemma {:induction false} ZeroBytes(j: nat)
    ensures ByteOf(0, j) == 0
  {
    if j > 0 {
      ZeroBytes(j - 1);
    }
  }

  lemma PagesRoom(p: Page, bs: nat)
    requires bs >= PTR_SIZE && p.count >= 1
    ensures p.beg <= End(p, bs) && End(p, bs) == Nth(p.beg, bs, p.count)
  {
    NthRises(p.beg, bs, 0, p.count);
    NthNext(p.beg, bs, 0);
  }

  lemma SameSelf(m: Memory, lo: int, hi: int)
    ensures SameOutside(m, m, lo, hi)
  {
  }

  lemma HeaderOutside(cells: map<int, nat>, lo: int, h: nat, beg: nat, next: nat)
    requires Outside(cells, lo, h + HEADER)
    ensures Outside(WithHeader(cells, h, beg, next), lo, h)
  {
  }

  lemma LinksZero(cells: map<int, nat>, beg: nat, bs: nat)
    ensures Links(cells, beg, bs, 0) == cells
  {
  }

  lemma LastBlock(p: Page, bs: nat)
    requires p.count >= 1
    ensures Nth(p.beg, bs, p.count - 1) == End(p, bs) - bs
  {
    NthNext(p.beg, bs, p.count - 1);
  }

  /** One link is stored. */
  lemma LinkOne(was: Memory, mem: Memory, base: map<int, nat>, p: Page, bs: nat, i: nat, v: nat)
    requires i < p.count && v < ADDRS && (bs >= PTR_SIZE ==> Outside(base, p.beg, End(p, bs)))
    requires PageSoFar(was, mem, base, p, bs, i)
    ensures bs >= PTR_SIZE ==> Holds(StorePtr(mem, Nth(p.beg, bs, i), v),
            Links(base, p.beg, bs, i)[Nth(p.beg, bs, i) := v])
    ensures bs >= PTR_SIZE ==> SameOutside(was, StorePtr(mem, Nth(p.beg, bs, i), v), p.beg, End(p, bs) + HEADER)
    ensures v == Nth(p.beg, bs, i + 1) ==> PageSoFar(was, StorePtr(mem, Nth(p.beg, bs, i), v), base, p, bs, i + 1)
  {
    if bs >= PTR_SIZE {
      PagesRoom(p, bs);
      LinkClear(base, p.beg, bs, p.count, i);
      NthRises(p.beg, bs, i, p.count);
      NthNext(p.beg, bs, 0);
      if i > 0 {
        NthRises(p.beg, bs, 0, i);
      }
      assert Links(base, p.beg, bs, i + 1) == Links(base, p.beg, bs, i)[Nth(p.beg, bs, i) := Nth(p.beg, bs, i + 1)];
      hide Nth, End, Links, Holds, Clear, SameOutside, Outside;
      StoreCell(mem, Links(base, p.beg, bs, i), Nth(p.beg, bs, i), v);
      StoreInside(was, mem, p.beg, End(p, bs) + HEADER, Nth(p.beg, bs, i), v);
    } else {
      NthRises(p.beg, bs, i, p.count);
      assert Nth(p.beg, bs, p.count) == End(p, bs);
      hide Nth, End, HeaderRest;
      SmallLink(mem, End(p, bs), p.beg, bs, Nth(p.beg, bs, i), v);
    }
  }

  /** Where the page stands after its first i links. */
  ghost predicate PageSoFar(was: Memory, mem: Memory, base: map<int, nat>, p: Page, bs: nat, i: nat) {
    if bs < PTR_SIZE then HeaderRest(mem, End(p, bs), p.beg, bs)
    else Holds(mem, Links(base, p.beg, bs, i)) && SameOutside(was, mem, p.beg, End(p, bs) + HEADER)
  }

  lemma SmallSoFar(m: Memory, base: map<int, nat>, p: Page, bs: nat)
    requires bs < PTR_SIZE
    ensures PageSoFar(m, HeaderStores(m, End(p, bs), p.beg), base, p, bs, 0)
  {
    SmallHeader(m, End(p, bs), p.beg, bs);
    hide HeaderStores, HeaderRest, End;
  }

  lemma HeaderSoFar(m: Memory, cells: map<int, nat>, p: Page, bs: nat)
    requires bs >= PTR_SIZE && p.count >= 1 && Holds(m, cells) && Outside(cells, p.beg, End(p, bs) + HEADER)
    requires End(p, bs) + HEADER <= ADDRS
    ensures PageSoFar(m, HeaderStores(m, End(p, bs), p.beg), WithHeader(cells, End(p, bs), p.beg, NULL), p, bs, 0)
    ensures Outside(WithHeader(cells, End(p, bs), p.beg, NULL), p.beg, End(p, bs))
  {
    PagesRoom(p, bs);
    var h := End(p, bs);
    hide End, Nth, Holds, HeaderStores, SameOutside, Outside, WithHeader, Links;
    StoreHeader(m, cells, p.beg, h, p.beg);
    HeaderOutside(cells, p.beg, h, p.beg, NULL);
    LinksZero(WithHeader(cells, h, p.beg, NULL), p.beg, bs);
    HeaderInside(m, p.beg, h, p.beg);
  }

  lemma LastEnd(p: Page, bs: nat)
    ensures Nth(p.beg, bs, p.count) == End(p, bs)
  {
  }

  lemma LinkNext(was: Memory, mem: Memory, base: map<int, nat>, p: Page, bs: nat, i: nat, ptr: int)
    requires i + 1 < p.count && End(p, bs) < ADDRS && (bs >= PTR_SIZE ==> Outside(base, p.beg, End(p, bs)))
    requires PageSoFar(was, mem, base, p, bs, i) && ptr == Nth(p.beg, bs, i)
    ensures PageSoFar(was, StorePtr(mem, ptr, ptr + bs), base, p, bs, i + 1) && ptr + bs == Nth(p.beg, bs, i + 1)
  {
    LastEnd(p, bs);
    hide PageSoFar, StorePtr, Nth, End, Outside;
    NthNext(p.beg, bs, i);
    NthRises(p.beg, bs, i + 1, p.count);
    LinkOne(was, mem, base, p, bs, i, ptr + bs);
  }

  lemma LinkLast(was: Memory, mem: Memory, base: map<int, nat>, p: Page, bs: nat, ptr: int)
    requires bs > 0 && p.count >= 1 && End(p, bs) < ADDRS && (bs >= PTR_SIZE ==> Outside(base, p.beg, End(p, bs)))
    requires PageSoFar(was, mem, base, p, bs, p.count - 1) && ptr == Nth(p.beg, bs, p.count - 1)
    ensures bs >= PTR_SIZE ==> Holds(StorePtr(mem, ptr, NULL),
            Links(base, p.beg, bs, p.count - 1)[Nth(p.beg, bs, p.count - 1) := NULL])
    ensures bs >= PTR_SIZE ==> SameOutside(was, StorePtr(mem, ptr, NULL), p.beg, End(p, bs) + HEADER)
    ensures bs < PTR_SIZE ==> SmallPage(StorePtr(mem, ptr, NULL), p, bs)
  {
    hide PageSoFar, StorePtr, Nth, End, Outside, Holds, SameOutside, Links, LoadPtr, SmallPage, LowBytes, HeaderRest;
    LastBlock(p, bs);
    if bs < PTR_SIZE {
      LinkLastSmall(was, mem, base, p, bs);
    } else {
      LinkOne(was, mem, base, p, bs, p.count - 1, NULL);
    }
  }

  lemma EndRoom(p: Page, bs: nat)
    requires p.count >= 1
    ensures End(p, bs) >= p.beg + bs
  {
    NthRises(p.beg, bs, 0, p.count);
    NthNext(p.beg, bs, 0);
    assert End(p, bs) == Nth(p.beg, bs, p.count);
    hide Nth, End;
  }

  lemma LinkLastSmall(was: Memory, mem: Memory, base: map<int, nat>, p: Page, bs: nat)
    requires 0 < bs < PTR_SIZE && p.count >= 1 && PageSoFar(was, mem, base, p, bs, p.count - 1) && End(p, bs) < ADDRS
    ensures End(p, bs) >= bs && SmallPage(StorePtr(mem, End(p, bs) - bs, NULL), p, bs)
  {
    hide HeaderRest, StorePtr, LoadPtr, LowBytes, Nth, End, Links, Holds, SameOutside, ByteOf, LoadBytes;
    EndRoom(p, bs);
    SmallBlocks(mem, End(p, bs), p.beg, bs);
  }

  /** A page of such blocks: its header says where it ends, but of where it begins the lowest bytes are lost. */
  ghost predicate SmallPage(m: Memory, p: Page, bs: nat)
    requires bs < PTR_SIZE
  {
    && LoadPtr(m, End(p, bs)) == p.beg - LowBytes(p.beg, PTR_SIZE - bs)
    && LoadPtr(m, End(p, bs) + 8) == End(p, bs) && LoadPtr(m, End(p, bs) + 16) == NULL
  }

  /** Its beginning still reads back exactly if the bytes that were lost had been zero. */
  lemma HeaderSurvives(m: Memory, p: Page, bs: nat)
    requires 0 < bs < PTR_SIZE && SmallPage(m, p, bs)
    ensures LoadPtr(m, End(p, bs)) == p.beg <==> p.beg % Pow256(PTR_SIZE - bs) == 0
    ensures bs == 7 ==> (LoadPtr(m, End(p, bs)) == p.beg <==> p.beg % 256 == 0)
  {
    hide LoadPtr, End;
    assert Pow256(1) == 256 * Pow256(0);
  }

  /** The loop that links the blocks of a page. */
  method LinkBlocks(was: Memory, start: Memory, at: nat, bs: nat, count: nat, ghost base: map<int, nat>)
    returns (mem: Memory)
    requires bs > 0 && count >= 1 && End(Page(at, count), bs) < ADDRS
    requires PageSoFar(was, start, base, Page(at, count), bs, 0)
    requires bs >= PTR_SIZE ==> Outside(base, at, End(Page(at, count), bs))
    ensures bs >= PTR_SIZE ==> Holds(mem, Links(base, at, bs, count - 1)[Nth(at, bs, count - 1) := NULL])
    ensures bs >= PTR_SIZE ==> SameOutside(was, mem, at, End(Page(at, count), bs) + HEADER)
    ensures bs < PTR_SIZE ==> SmallPage(mem, Page(at, count), bs)
  {
    ghost var p := Page(at, count);
    mem := start;
    var ptr, i := at, 0;
    NthNext(at, bs, 0);
    hide Holds, StorePtr, SameOutside, Outside, End, Nth, Links, LoadPtr, PageSoFar, SmallPage;
    while i < count - 1
      invariant 0 <= i <= count - 1 && ptr == Nth(at, bs, i)
      invariant PageSoFar(was, mem, base, p, bs, i)
    {
      LinkNext(was, mem, base, p, bs, i, ptr);
      mem := StorePtr(mem, ptr, ptr + bs);
      ptr := ptr + bs;
      i := i + 1;
    }
    LinkLast(was, mem, base, p, bs, ptr);
    mem := StorePtr(mem, ptr, NULL);
  }

  /** malloc_mem_page in the memory at `at`: the header, then a link in each block. */
  method MakePage(was: Memory, at: nat, bs: nat, count: nat, ghost cells: map<int, nat>)
    returns (mem: Memory, page: int)
    requires bs > 0 && at > 0 && count >= 1 && End(Page(at, count), bs) + HEADER <= ADDRS
    requires bs >= PTR_SIZE ==> Holds(was, cells) && Outside(cells, at, End(Page(at, count), bs) + HEADER)
    ensures page == End(Page(at, count), bs)
    ensures bs >= PTR_SIZE ==> Holds(mem, GrownCells(cells, bs, Page(at, count), NULL))
    ensures bs >= PTR_SIZE ==> SameOutside(was, mem, at, page + HEADER)
    ensures bs < PTR_SIZE ==> SmallPage(mem, Page(at, count), bs)
  {
    ghost var p := Page(at, count);
    hide Holds, StorePtr, SameOutside, Outside, WithHeader, Links, LoadPtr, PageSoFar, SmallPage, HeaderRest;
    page := Nth(at, bs, count);
    if bs >= PTR_SIZE {
      HeaderSoFar(was, cells, p, bs);
    } else {
      SmallSoFar(was, WithHeader(cells, page, at, NULL), p, bs);
    }
    mem := HeaderStores(was, page, at);
    mem := LinkBlocks(was, mem, at, bs, count, WithHeader(cells, page, at, NULL));
  }

  /** page->next = pool->mm */
  lemma SetNext(was: Memory, m: Memory, cells: map<int, nat>, bs: nat, p: Page, next: nat)
    requires bs >= PTR_SIZE && p.count >= 1 && next < ADDRS && Outside(cells, p.beg, End(p, bs) + HEADER)
    requires Holds(m, GrownCells(cells, bs, p, NULL)) && SameOutside(was, m, p.beg, End(p, bs) + HEADER)
    ensures Holds(StorePtr(m, End(p, bs) + 16, next), GrownCells(cells, bs, p, next))
    ensures SameOutside(was, StorePtr(m, End(p, bs) + 16, next), p.beg, End(p, bs) + HEADER)
  {
    hide End, GrownCells, Holds, SameOutside, StorePtr, Clear, Outside, Nth;
    PagesRoom(p, bs);
    GrownCellsAre(cells, bs, p, NULL);
    NextAfter(cells, bs, p, next);
    ClearInside(m, GrownCells(cells, bs, p, NULL), End(p, bs) + 16);
    StoreCell(m, GrownCells(cells, bs, p, NULL), End(p, bs) + 16, next);
    StoreInside(was, m, p.beg, End(p, bs) + HEADER, End(p, bs) + 16, next);
  }

  lemma ClearInside(m: Memory, cells: map<int, nat>, a: int)
    requires Holds(m, cells) && a in cells
    ensures Clear(cells, a)
  {
  }

  lemma RoomFor(s: Shape, bs: nat, mem: Memory, p: Page)
    requires bs > 0 && Ok(s, bs, mem) && FreshAt(s.pages, bs, p)
    ensures Holds(mem, s.cells) && Outside(s.cells, p.beg, End(p, bs) + HEADER)
    ensures bs >= PTR_SIZE && p.beg > 0 && End(p, bs) + HEADER <= ADDRS
  {
    FreshOutside(s, bs, p);
  }

  lemma GrowOk(s: Shape, bs: nat, was: Memory, m: Memory, p: Page)
    requires Ok(s, bs, was) && s.free == [] && FreshAt(s.pages, bs, p)
    requires Holds(m, GrownCells(s.cells, bs, p, NULL)) && SameOutside(was, m, p.beg, End(p, bs) + HEADER)
    ensures var next := PageAt(s.pages, bs, 0);
      var m' := StorePtr(m, End(p, bs) + 16, next);
      Ok(Grown(s, bs, p, GrownCells(s.cells, bs, p, next)), bs, m') && Kept(was, m', s.held, bs)
    ensures var s' := Grown(s, bs, p, GrownCells(s.cells, bs, p, PageAt(s.pages, bs, 0)));
      && s'.pages == [p] + s.pages && s'.held == s.held && |s'.free| == p.count
      && HeadOf(s'.free) == p.beg && PageAt(s'.pages, bs, 0) == End(p, bs)
  {
    var next := PageAt(s.pages, bs, 0);
    var m' := StorePtr(m, End(p, bs) + 16, next);
    FreshOutside(s, bs, p);
    hide GrownCells, End, SameOutside, Holds, StorePtr, Kept, Outside, Sorted;
    SetNext(was, m, s.cells, bs, p, next);
    GrownOk(s, bs, was, p, m');
    KeptOutside(s, bs, was, m', p);
  }

  lemma CellLoads(m: Memory, cells: map<int, nat>, a: int)
    requires Holds(m, cells) && a in cells
    ensures LoadPtr(m, a) == cells[a]
  {
    hide ByteOf, LoadPtr, Loads;
    LoadIs(m, a, cells[a]);
  }

  /** The header of page k reads back. */
  lemma HeaderLoads(s: Shape, bs: nat, mem: Memory, k: nat)
    requires bs > 0 && Ok(s, bs, mem) && k <= |s.pages| && PageAt(s.pages, bs, k) != NULL
    ensures k < |s.pages| && var h := PageAt(s.pages, bs, k);
      && LoadPtr(mem, h) == s.pages[k].beg && LoadPtr(mem, h + 8) == End(s.pages[k], bs)
      && LoadPtr(mem, h + 16) == PageAt(s.pages, bs, k + 1)
  {
    hide Holds, LoadPtr, PagesApart, Chain, Sorted, End;
    var h := PageAt(s.pages, bs, k);
    assert HeaderIs(s.cells, h, s.pages[k].beg, PageAt(s.pages, bs, k + 1));
    CellLoads(mem, s.cells, h);
    CellLoads(mem, s.cells, h + 8);
    CellLoads(mem, s.cells, h + 16);
  }

  lemma FrontLoads(s: Shape, bs: nat, mem: Memory)
    requires bs > 0 && Ok(s, bs, mem) && s.pages != []
    ensures LoadPtr(mem, PageAt(s.pages, bs, 0)) == s.pages[0].beg
  {
    EndMultiple(s.pages[0], bs);
    hide LoadPtr, End;
    HeaderLoads(s, bs, mem, 0);
  }

  /** A new page, put in front of the others. */
  method PageInFront(was: Memory, at: nat, bs: nat, count: nat, front: nat, ghost s: Shape)
    returns (mem: Memory, page: int, ghost s': Shape)
    requires count >= 1 && bs > 0 && Ok(s, bs, was) && s.free == [] && FreshAt(s.pages, bs, Page(at, count))
    requires front == PageAt(s.pages, bs, 0)
    ensures Ok(s', bs, mem) && Kept(was, mem, s.held, bs)
    ensures s'.pages == [Page(at, count)] + s.pages && s'.held == s.held && |s'.free| == count
    ensures HeadOf(s'.free) == at && page == PageAt(s'.pages, bs, 0) && LoadPtr(mem, page) == at
  {
    hide Ok, Grown, GrownCells, End, SameOutside, HeadOf, LoadPtr, StorePtr;
    hide Holds, Kept, Outside, FreshAt, PageAt, Nth, SmallPage;
    ghost var p := Page(at, count);
    RoomFor(s, bs, was, p);
    mem, page := MakePage(was, at, bs, count, s.cells);
    GrowOk(s, bs, was, mem, p);
    mem := StorePtr(mem, page + 16, front);
    s' := Grown(s, bs, p, GrownCells(s.cells, bs, p, PageAt(s.pages, bs, 0)));
    FrontLoads(s', bs, mem);
  }

  // ---------------------------------------------------------------- the pool

  class MemPool {
    var blockSize: int
    var blockTotal: int
    var autoIncrement: int
    var freeCount: int
    var freePtr: nat
    var mm: nat
    var mem: Memory
    ghost var shape: Shape

    ghost predicate Valid()
      reads this
    {
      && blockSize >= PTR_SIZE && Ok(shape, blockSize, mem)
      && freePtr == HeadOf(shape.free) && mm == PageAt(shape.pages, blockSize, 0)
      && freeCount == |shape.free| && blockTotal == |shape.free| + |shape.held|
    }

    /** create_mem_pool; `at` is what malloc answers, if it is asked. */
    method Create(size: int, count: int, increment: int, at: nat) returns (r: int)
      requires size > 0 && count > 0 && at != NULL ==> End(Page(at, count), size) + HEADER <= ADDRS
      modifies this
      ensures r == if size <= 0 || count <= 0 || at == NULL then -1 else 0
      ensures r == 0 ==> blockSize == size && autoIncrement == increment && freeCount == blockTotal == count
      ensures r == 0 ==> mm == End(Page(at, count), size) && freePtr == LoadPtr(mem, mm)
      ensures r == 0 && size >= PTR_SIZE ==> Valid() && freePtr == at
      ensures r == 0 && size >= PTR_SIZE ==>
              shape.pages == [Page(at, count)] && |shape.free| == count && shape.held == {}
      ensures r == 0 && size < PTR_SIZE ==> SmallPage(mem, Page(at, count), size)
    {
      hide Ok, GrownCells, End, SameOutside, HeadOf, LoadPtr, Holds;
      hide SmallPage, LoadBytes, LowBytes, StorePtr, FreshAt, Kept;
      if size <= 0 || count <= 0 {
        return -1;
      }
      blockSize := size;
      autoIncrement := increment;
      freeCount := count;
      blockTotal := count;
      if at == NULL {
        return -1;
      }
      ghost var p, none := Page(at, count), Shape([], [], {}, map[]);
      EmptyOk(size, mem);
      var m, page := MakePage(mem, at, size, count, map[]);
      mem := m;
      mm := page;
      freePtr := LoadPtr(mem, page);
      if size >= PTR_SIZE {
        FirstPage(size, p);
        GrownOk(none, size, map[], p, mem);
        shape := Grown(none, size, p, GrownCells(map[], size, p, NULL));
        FrontLoads(shape, size, mem);
      }
      return 0;
    }

    /** A page more, when no block is free. */
    method Grow(at: nat)
      requires Valid() && shape.free == [] && autoIncrement > 0
      requires FreshAt(shape.pages, blockSize, Page(at, autoIncrement))
      modifies this`mem, this`mm, this`freePtr, this`freeCount, this`blockTotal, this`shape
      ensures Valid()
      ensures shape.pages == [Page(at, autoIncrement)] + old(shape.pages) && shape.held == old(shape.held)
      ensures |shape.free| == autoIncrement && freePtr == at && Kept(old(mem), mem, old(shape.held), blockSize)
    {
      ghost var s := shape;
      hide Ok, FreshAt, Kept, PageAt, HeadOf, LoadPtr;
      var m, page, next := PageInFront(mem, at, blockSize, autoIncrement, mm, s);
      mem, mm, freePtr, shape := m, page, LoadPtr(m, page), next;
      freeCount, blockTotal := freeCount + autoIncrement, blockTotal + autoIncrement;
    }

    /** malloc_mem_pool: a block that nobody holds, or NULL when there is none and no page to be had. */
    method Malloc(at: nat) returns (r: nat)
      requires Valid()
      requires at == NULL || FreshAt(shape.pages, blockSize, Page(at, if autoIncrement > 0 then autoIncrement else 1))
      modifies this`mem, this`mm, this`freePtr, this`freeCount, this`blockTotal, this`shape
      ensures Valid()
      ensures r == NULL <==> old(shape.free) == [] && (autoIncrement <= 0 || at == NULL)
      ensures r == NULL ==> shape == old(shape) && mem == old(mem)
      ensures r != NULL ==>
              r !in old(shape.held) && shape.held == old(shape.held) + {r} && IsBlock(shape.pages, blockSize, r)
      ensures old(shape.free) != [] ==> r == old(shape.free)[0] && shape.free == old(shape.free)[1..]
      ensures r != NULL && old(shape.free) == [] ==> r == at && |shape.free| == autoIncrement - 1
      ensures r != NULL ==> shape.pages == if old(shape.free) == [] then [Page(at, autoIncrement)] + old(shape.pages)
              else old(shape.pages)
      ensures Kept(old(mem), mem, old(shape.held), blockSize)
    {
      hide Ok, Kept, FreshAt, IsBlock, PageAt, Taken, HeadOf, LoadPtr, LoadBytes, End, Nth;
      KeptSelf(mem, shape.held, blockSize);
      FreePositive(shape, blockSize, mem);
      if freePtr == NULL {
        if autoIncrement <= 0 {
          return NULL;
        }
        if at == NULL {
          return NULL;
        }
        Grow(at);
        FreePositive(shape, blockSize, mem);
      }
      TakeOk(shape, blockSize, mem);
      var ptr := freePtr;
      freePtr := LoadPtr(mem, ptr);
      freeCount := freeCount - 1;
      shape := Taken(shape);
      return ptr;
    }

    /** A client writes where it may: into a block that it holds. */
    method Write(b: int, x: int, v: Byte)
      requires Valid() && b in shape.held && b <= x < b + blockSize
      modifies this`mem
      ensures Valid() && mem == old(mem)[x := v]
    {
      ClientWrites(shape, blockSize, mem, b, x, v);
      mem := mem[x := v];
    }

    /** The page that a pointer points into: a block, free or held, is one that starts a block there. */
    method FindPage(ptr: int) returns (isFind: bool, beg: int)
      requires Valid()
      ensures IsBlock(shape.pages, blockSize, ptr) <==> isFind && (ptr - beg) % blockSize == 0
    {
      hide Ok, PageAt, LoadPtr, BlockOf, IsBlock;
      var page := mm;
      isFind, beg := false, 0;
      ghost var k := 0;
      while page != NULL
        invariant !isFind && k <= |shape.pages| && page == PageAt(shape.pages, blockSize, k)
        invariant forall j :: 0 <= j < k ==> !BlockOf(shape.pages[j], blockSize, ptr)
        decreases |shape.pages| - k
      {
        HeaderLoads(shape, blockSize, mem, k);
        InPage(shape, blockSize, mem, k, ptr);
        beg := LoadPtr(mem, page);
        if beg <= ptr < LoadPtr(mem, page + 8) {
          isFind := true;
          return;
        }
        page := LoadPtr(mem, page + 16);
        k := k + 1;
      }
      NotFound(shape, blockSize, mem, k, ptr);
    }

    /**
     free_mem_pool: a held block goes back; a pointer to no block changes nothing. A block that is
     free already is linked in a second time, and with that the pool is no longer in order.
     */
    method Free(ptr: nat)
      requires Valid()
      modifies this`mem, this`freePtr, this`freeCount, this`shape
      ensures Valid() <==> ptr !in old(shape.free)
      ensures ptr in old(shape.held) ==> shape.held == old(shape.held) - {ptr} && shape.free == [ptr] + old(shape.free)
      ensures ptr !in old(shape.held) ==> shape == old(shape)
      ensures ptr !in old(shape.held) && ptr !in old(shape.free) ==> mem == old(mem) && freePtr == old(freePtr)
      ensures ptr in old(shape.free) ==>
              mem == StorePtr(old(mem), ptr, old(freePtr)) && freePtr == ptr && freeCount == |shape.free| + 1
      ensures shape.pages == old(shape.pages) && Kept(old(mem), mem, shape.held, blockSize)
    {
      hide Ok, Kept, PageAt, HeadOf, StorePtr, IsBlock, ByteOf, Returned, End, Nth;
      KeptSelf(mem, shape.held, blockSize);
      NoBlockAtNull(shape, blockSize, mem);
      BlocksAre(shape, blockSize, mem, ptr);
      if ptr == NULL {
        return;
      }
      var isFind, beg := FindPage(ptr);
      if isFind {
        var offset := ptr - beg;
        if offset % blockSize == 0 {
          KeptStore(shape, blockSize, mem, ptr, HeadOf(shape.free));
          assert ptr !in shape.held ==> shape.held - {ptr} == shape.held;
          if ptr in shape.held {
            ReturnOk(shape, blockSize, mem, ptr);
            HeadIs([ptr] + shape.free, ptr);
          }
          mem := StorePtr(mem, ptr, freePtr);
          freePtr := ptr;
          freeCount := freeCount + 1;
          if ptr in shape.held {
            shape := Returned(shape, ptr);
          }
        }
      }
    }

    /** destroy_mem_pool: every page is given back once, newest first. */
    method Destroy() returns (freed: seq<nat>)
      requires Valid()
      modifies this`mm, this`freePtr, this`freeCount, this`blockSize, this`autoIncrement
      ensures |freed| == |shape.pages| && forall i :: 0 <= i < |freed| ==> freed[i] == shape.pages[i].beg
      ensures mm == NULL && freePtr == NULL && freeCount == 0 && blockSize == 0 && autoIncrement == 0
    {
      freed := [];
      hide Ok, PageAt, LoadPtr;
      var page := mm;
      while page != NULL
        modifies {}
        invariant |freed| <= |shape.pages| && page == PageAt(shape.pages, blockSize, |freed|)
        invariant forall i :: 0 <= i < |freed| ==> freed[i] == shape.pages[i].beg
        decreases |shape.pages| - |freed|
      {
        HeaderLoads(shape, blockSize, mem, |freed|);
        var next := LoadPtr(mem, page + 16);
        freed := freed + [LoadPtr(mem, page)];
        page := next;
      }
      LastPage(shape, blockSize, mem, |freed|);
      mm, freePtr := NULL, NULL;
      freeCount, blockSize, autoIncrement := 0, 0, 0;
    }
  }

  lemma EmptyOk(bs: nat, m: Memory)
    ensures Holds(m, map[]) && (bs >= PTR_SIZE ==> Ok(Shape([], [], {}, map[]), bs, map[]))
  {
  }

  lemma FirstPage(bs: nat, p: Page)
    requires p.beg > 0 && p.count >= 1 && End(p, bs) + HEADER <= ADDRS
    ensures FreshAt([], bs, p) && PageAt([], bs, 0) == NULL
  {
  }

  lemma KeptSelf(m: Memory, held: set<nat>, bs: nat)
    ensures Kept(m, m, held, bs)
  {
  }

  lemma FreePositive(s: Shape, bs: nat, mem: Memory)
    requires bs > 0 && Ok(s, bs, mem)
    ensures HeadOf(s.free) == NULL <==> s.free == []
  {
    if s.free != [] {
      assert Linked(s.cells, s.free, 0);
    }
  }

  lemma NoBlockAtNull(s: Shape, bs: nat, mem: Memory)
    requires bs > 0 && Ok(s, bs, mem)
    ensures NULL !in s.held && NULL !in s.free
  {
  }

  lemma BlocksAre(s: Shape, bs: nat, mem: Memory, b: int)
    requires bs > 0 && Ok(s, bs, mem)
    ensures IsBlock(s.pages, bs, b) <==> b in s.held || b in s.free
    ensures b in s.held ==> b !in s.free
  {
  }

  /** The test of a pointer against one page. */
  lemma InPage(s: Shape, bs: nat, mem: Memory, k: nat, ptr: int)
    requires bs > 0 && Ok(s, bs, mem) && k < |s.pages|
    ensures var p := s.pages[k];
      && (BlockOf(p, bs, ptr) <==> p.beg <= ptr < End(p, bs) && (ptr - p.beg) % bs == 0)
      && (BlockOf(p, bs, ptr) ==> IsBlock(s.pages, bs, ptr))
      && (p.beg <= ptr < End(p, bs) && !BlockOf(p, bs, ptr) ==> !IsBlock(s.pages, bs, ptr))
  {
    var p := s.pages[k];
    if p.beg <= ptr < End(p, bs) && !BlockOf(p, bs, ptr) {
      OtherPage(s, bs, mem, k, ptr);
    }
  }

  /** A pointer into one page is not a block of another. */
  lemma OtherPage(s: Shape, bs: nat, mem: Memory, k: nat, ptr: int)
    requires bs > 0 && Ok(s, bs, mem) && k < |s.pages| && s.pages[k].beg <= ptr < End(s.pages[k], bs)
    ensures IsBlock(s.pages, bs, ptr) ==> BlockOf(s.pages[k], bs, ptr)
  {
    if IsBlock(s.pages, bs, ptr) {
      var i :| 0 <= i < |s.pages| && BlockOf(s.pages[i], bs, ptr);
    }
  }

  lemma NotFound(s: Shape, bs: nat, mem: Memory, k: nat, ptr: int)
    requires bs > 0 && Ok(s, bs, mem) && k <= |s.pages| && PageAt(s.pages, bs, k) == NULL
    requires forall j :: 0 <= j < k ==> !BlockOf(s.pages[j], bs, ptr)
    ensures !IsBlock(s.pages, bs, ptr)
  {
    LastPage(s, bs, mem, k);
    hide BlockOf, End;
  }

  lemma LastPage(s: Shape, bs: nat, mem: Memory, k: nat)
    requires bs > 0 && Ok(s, bs, mem) && k <= |s.pages| && PageAt(s.pages, bs, k) == NULL
    ensures k == |s.pages|
  {
    if k < |s.pages| {
      EndMultiple(s.pages[k], bs);
    }
  }

  lemma KeptStore(s: Shape, bs: nat, mem: Memory, b: int, p: nat)
    requires bs > 0 && Ok(s, bs, mem) && IsBlock(s.pages, bs, b)
    ensures Kept(mem, StorePtr(mem, b, p), s.held - {b}, bs)
  {
    Stored(mem, b, p);
    hide StorePtr;
    forall o | o in s.held && o != b
      ensures o + bs <= b || b + PTR_SIZE <= o
    {
      if o < b {
        BlocksClear(s.pages, bs, o, b);
      } else {
        BlocksClear(s.pages, bs, b, o);
      }
    }
    hide Ok;
  }

  /** What is known of one block of the chain. */
  lemma Chained(s: Shape, bs: nat, mem: Memory, i: nat)
    requires bs > 0 && Ok(s, bs, mem) && i < |s.free|
    ensures var a := s.free[i];
      && 0 < a < ADDRS && a in s.cells && Loads(mem, a, s.cells[a]) && s.cells[a] < ADDRS && Clear(s.cells, a)
      && s.cells[a] == (if i + 1 < |s.free| then s.free[i + 1] else NULL)
    ensures HeadOf(s.free) < ADDRS
    ensures forall j :: 0 <= j < |s.free| && j != i ==> s.free[j] != s.free[i]
  {
    assert Linked(s.cells, s.free, i) && Linked(s.cells, s.free, 0);
    FreeInside(s, bs, mem, s.free[i]);
    FreeInside(s, bs, mem, s.free[0]);
  }

  lemma Around(n: nat, k: nat)
    requires n > 0
    ensures (n + k) % (k + 1) == if (n - 1 + k) % (k + 1) == k then 0 else (n - 1 + k) % (k + 1) + 1
  {
    var q, r := (n - 1 + k) / (k + 1), (n - 1 + k) % (k + 1);
    assert n - 1 + k == (k + 1) * q + r;
    if r == k {
      assert n + k == (k + 1) * (q + 1);
      ModUnique(n + k, k + 1, q + 1, 0);
    } else {
      ModUnique(n + k, k + 1, q, r + 1);
    }
  }

  /** One step along the chain after block k was freed a second time. */
  lemma DoubleStep(s: Shape, bs: nat, mem: Memory, k: nat, i: nat)
    requires bs > 0 && Ok(s, bs, mem) && i <= k < |s.free|
    ensures LoadPtr(StorePtr(mem, s.free[k], HeadOf(s.free)), s.free[i]) == if i == k then s.free[0] else s.free[i + 1]
  {
    hide Ok, StorePtr, ByteOf, LoadPtr, LoadBytes, Linked;
    var b, m' := s.free[k], StorePtr(mem, s.free[k], HeadOf(s.free));
    Chained(s, bs, mem, i);
    Chained(s, bs, mem, k);
    Stored(mem, b, HeadOf(s.free));
    if i == k {
      LoadIs(m', b, HeadOf(s.free));
    } else {
      assert Loads(m', s.free[i], s.cells[s.free[i]]);
      LoadIs(m', s.free[i], s.cells[s.free[i]]);
    }
  }

  /** After a second free the chain in memory goes round and round over the blocks up to the one freed. */
  lemma {:induction false} DoubleFree(s: Shape, bs: nat, mem: Memory, k: nat, n: nat)
    requires bs > 0 && Ok(s, bs, mem) && k < |s.free|
    ensures Follow(StorePtr(mem, s.free[k], HeadOf(s.free)), s.free[k], n) == s.free[(n + k) % (k + 1)] != NULL
  {
    hide Ok, StorePtr, LoadPtr;
    Chained(s, bs, mem, (n + k) % (k + 1));
    if n > 0 {
      DoubleFree(s, bs, mem, k, n - 1);
      DoubleStep(s, bs, mem, k, (n - 1 + k) % (k + 1));
      Around(n, k);
    } else {
      Once(k);
    }
  }

  lemma Once(k: nat)
    ensures k % (k + 1) == k
  {
  }

  lemma HeadIs(free: seq<nat>, b: int)
    requires free != [] && free[0] == b
    ensures HeadOf(free) == b
  {
  }
}
