/**
 The state behind malloc (threads/malloc.c) and the page allocator (threads/palloc.c), and what every call keeps:
 blocks and pages are addresses and page numbers, as in the source.
 */
module HeapModel {
  import opened Basics
  import Bitmap

  const HEADER: int := 12      // sizeof (struct arena)
  const DESC_CNT: nat := 7

  /** block_size of descriptor `k`: malloc_init doubles it from 16 while it is below half a page. */
  function BlockSize(k: nat): (s: int)
    requires k < DESC_CNT
    ensures 16 <= s <= 1024
  {
    [16, 32, 64, 128, 256, 512, 1024][k]
  }

  /** blocks_per_arena. */
  function PerArena(k: nat): (n: int)
    requires k < DESC_CNT
    ensures n >= 3
  {
    (PGSIZE - HEADER) / BlockSize(k)
  }

  function Page(b: int): int { b / PGSIZE }          // pg_no
  function Ofs(b: int): int { b % PGSIZE }           // pg_ofs

  /** arena_to_block. */
  function BlockAt(p: int, k: nat, i: int): int
    requires k < DESC_CNT
  {
    p * PGSIZE + HEADER + i * BlockSize(k)
  }

  function BigBlock(p: int): int { p * PGSIZE + HEADER }

  /** What block_to_arena checks about the place of a block in an arena of descriptor `k`. */
  predicate IsBlock(b: int, k: nat)
    requires k < DESC_CNT
  {
    Ofs(b) >= HEADER && (Ofs(b) - HEADER) % BlockSize(k) == 0 && (Ofs(b) - HEADER) / BlockSize(k) < PerArena(k)
  }

  datatype Arena = Small(desc: nat, freeCnt: nat) | Big(pageCnt: nat)

  function Span(a: Arena): nat {
    if a.Small? then 1 else a.pageCnt
  }

  /** `first` is the first page of the pool; `others` are pages that callers of palloc other than malloc hold. */
  datatype View = View(first: int, used: seq<bool>, free: seq<seq<int>>, arenas: map<int, Arena>,
                       live: set<int>, others: set<int>)

  predicate InPool(v: View, q: int) {
    v.first <= q < v.first + |v.used|
  }

  predicate Covers(v: View, p: int, q: int) {
    p in v.arenas && p <= q < p + Span(v.arenas[p])
  }

  // ---------------------------------------------------------------- pages

  /** Arenas lie in used pages of the pool, apart from each other and from pages held by others. */
  ghost predicate PagesApart(v: View) {
    && (forall p | p in v.arenas ::
          v.first <= p && 1 <= Span(v.arenas[p]) && p + Span(v.arenas[p]) <= v.first + |v.used|)
    && (forall p, q {:trigger Covers(v, p, q)} | Covers(v, p, q) ::
          InPool(v, q) && v.used[q - v.first] && q !in v.others)
    && (forall p, r, q {:trigger Covers(v, p, q), Covers(v, r, q)} | Covers(v, p, q) && Covers(v, r, q) :: p == r)
  }

  /** No page is lost: a used page belongs to an arena or to somebody else. */
  ghost predicate PagesKept(v: View) {
    && (forall q | q in v.others :: InPool(v, q) && v.used[q - v.first])
    && (forall q {:trigger InPool(v, q)} | InPool(v, q) && v.used[q - v.first] && q !in v.others ::
          exists p :: Covers(v, p, q))
  }

  // ---------------------------------------------------------------- blocks

  ghost predicate SmallIn(v: View, b: int, k: nat) {
    Page(b) in v.arenas && v.arenas[Page(b)].Small? && v.arenas[Page(b)].desc == k
  }

  /** The free list of descriptor `k` holds blocks of its arenas, once each, none of them in use. */
  ghost predicate FreeOk(v: View) {
    && |v.free| == DESC_CNT
    && (forall k: nat | k < DESC_CNT :: Distinct(v.free[k]))
    && (forall k: nat, b | k < DESC_CNT && b in v.free[k] :: SmallIn(v, b, k) && IsBlock(b, k) && b !in v.live)
  }

  /** The blocks of page `p` on a free list. */
  ghost function FreeIn(list: seq<int>, p: int): set<int> {
    set b | b in list && Page(b) == p
  }

  ghost predicate CountsOk(v: View) {
    && |v.free| == DESC_CNT
    && (forall p | p in v.arenas && v.arenas[p].Small? :: v.arenas[p].desc < DESC_CNT)
    && (forall p | p in v.arenas && v.arenas[p].Small? :: v.arenas[p].freeCnt == |FreeIn(v.free[v.arenas[p].desc], p)|)
  }

  predicate Placed(b: int, a: Arena) {
    if a.Small? then a.desc < DESC_CNT && IsBlock(b, a.desc) else Ofs(b) == HEADER
  }

  /** A block in use is where its arena can hold one. */
  ghost predicate LiveOk(v: View) {
    forall b | b in v.live ::
      && Page(b) in v.arenas
      && Placed(b, v.arenas[Page(b)])
  }

  /** No block is lost: it is free or in use. */
  ghost predicate BlocksKept(v: View) {
    && |v.free| == DESC_CNT
    && (forall b, k: nat {:trigger SmallIn(v, b, k)} | k < DESC_CNT && SmallIn(v, b, k) && IsBlock(b, k) ::
          b in v.free[k] || b in v.live)
    && (forall p | p in v.arenas && v.arenas[p].Big? :: BigBlock(p) in v.live)
  }

  /** Every arena but `p` has a block in use. */
  ghost predicate InUseBut(v: View, p: int) {
    forall r | r in v.arenas && r != p && v.arenas[r].Small? && v.arenas[r].desc < DESC_CNT ::
        v.arenas[r].freeCnt < PerArena(v.arenas[r].desc)
  }

  ghost predicate Core(v: View) {
    v.first > 0 && PagesApart(v) && PagesKept(v) && FreeOk(v) && CountsOk(v) && LiveOk(v) && BlocksKept(v)
  }

  ghost predicate Inv(v: View) {
    Core(v) && InUseBut(v, 0)
  }

  // ---------------------------------------------------------------- addresses

  lemma {:induction false} Layout(k: nat)
    requires k < DESC_CNT
    ensures PerArena(k) >= 3 && HEADER + PerArena(k) * BlockSize(k) <= PGSIZE
    ensures PGSIZE < HEADER + (PerArena(k) + 1) * BlockSize(k)
  {
    if k == 0 {} else if k == 1 {} else if k == 2 {} else if k == 3 {} else if k == 4 {} else if k == 5 {} else {}
  }

  lemma {:induction false} BlockAtIs(p: int, k: nat, i: int)
    requires k < DESC_CNT && 0 <= i < PerArena(k)
    ensures Page(BlockAt(p, k, i)) == p && Ofs(BlockAt(p, k, i)) == HEADER + i * BlockSize(k)
    ensures IsBlock(BlockAt(p, k, i), k)
    ensures HEADER + (i + 1) * BlockSize(k) <= PGSIZE
  {
    Layout(k);
    var s := BlockSize(k);
    MulMono(i + 1, PerArena(k), s);
    MulMono(0, i, s);
    assert (i + 1) * s == i * s + s;
    assert (i * s) % s == 0 && (i * s) / s == i by { DivExact(i, s); }
  }

  lemma {:induction false} DivExact(i: int, s: int)
    requires s > 0
    ensures (i * s) % s == 0 && (i * s) / s == i
  {
    var q := (i * s) / s;
    assert i * s == q * s + (i * s) % s;
    if q < i { MulMono(q + 1, i, s); }
    if q > i { MulMono(i + 1, q, s); }
  }

  lemma {:induction false} IsBlockAt(b: int, k: nat)
    requires k < DESC_CNT && IsBlock(b, k)
    ensures var i := (Ofs(b) - HEADER) / BlockSize(k); 0 <= i < PerArena(k) && b == BlockAt(Page(b), k, i)
  {
    var o, s := Ofs(b) - HEADER, BlockSize(k);
    assert o == (o / s) * s + o % s;
    if o / s < 0 { MulMono(o / s, -1, s); }
  }

  // ---------------------------------------------------------------- steps

  /** palloc hands malloc `Span(a)` free pages from `p` on, which become arena `a`. */
  function TakePages(v: View, p: int, a: Arena): View
    requires v.first <= p && p + Span(a) <= v.first + |v.used|
  {
    v.(used := Bitmap.Filled(v.used, p - v.first, Span(a), true), arenas := v.arenas[p := a])
  }

  /** malloc gives the pages of arena `p` back. */
  function ReleasePages(v: View, p: int): View
    requires p in v.arenas && v.first <= p && p + Span(v.arenas[p]) <= v.first + |v.used|
  {
    v.(used := Bitmap.Filled(v.used, p - v.first, Span(v.arenas[p]), false), arenas := v.arenas - {p})
  }

  lemma {:induction false} TakePagesApart(v: View, p: int, a: Arena)
    requires PagesApart(v) && Span(a) >= 1
    requires v.first <= p && p + Span(a) <= v.first + |v.used| && Bitmap.AllAre(v.used, p - v.first, Span(a), false)
    requires forall q | q in v.others :: InPool(v, q) && v.used[q - v.first]
    ensures PagesApart(TakePages(v, p, a)) && p !in v.arenas
  {
    hide Bitmap.Filled;
    Bitmap.FilledAt(v.used, p - v.first, Span(a), true);
    var w := TakePages(v, p, a);
    assert !Covers(v, p, p);
    forall r, q | Covers(w, r, q) && r != p ensures Covers(v, r, q) && !(p <= q < p + Span(a)) {}
  }

  lemma {:induction false} TakePagesKept(v: View, p: int, a: Arena)
    requires PagesKept(v) && p !in v.arenas
    requires v.first <= p && p + Span(a) <= v.first + |v.used| && Bitmap.AllAre(v.used, p - v.first, Span(a), false)
    ensures PagesKept(TakePages(v, p, a))
  {
    hide Bitmap.Filled;
    Bitmap.FilledAt(v.used, p - v.first, Span(a), true);
    var w := TakePages(v, p, a);
    forall q | InPool(w, q) && w.used[q - w.first] && q !in w.others ensures exists r :: Covers(w, r, q) {
      if p <= q < p + Span(a) {
        assert Covers(w, p, q);
      } else {
        assert InPool(v, q);
        var r :| Covers(v, r, q);
        assert Covers(w, r, q);
      }
    }
  }

  lemma {:induction false} ReleaseAt(v: View, p: int, r: int, q: int)
    requires PagesApart(v) && p in v.arenas && Covers(ReleasePages(v, p), r, q)
    ensures Covers(v, r, q) && r != p && !(p <= q < p + Span(v.arenas[p]))
  {
    assert r in v.arenas && r != p;
    assert Covers(v, r, q);
    assert !Covers(v, p, q);
  }

  lemma {:induction false} ReleasePagesApart(v: View, p: int)
    requires PagesApart(v) && p in v.arenas
    ensures PagesApart(ReleasePages(v, p))
  {
    hide Bitmap.Filled;
    Bitmap.FilledAt(v.used, p - v.first, Span(v.arenas[p]), false);
    var w := ReleasePages(v, p);
    forall r, q | Covers(w, r, q)
      ensures Covers(v, r, q) && !(p <= q < p + Span(v.arenas[p]))
    {
      ReleaseAt(v, p, r, q);
    }
  }

  lemma {:induction false} ReleasePagesKept(v: View, p: int)
    requires PagesApart(v) && PagesKept(v) && p in v.arenas
    ensures PagesKept(ReleasePages(v, p))
  {
    hide Bitmap.Filled;
    Bitmap.FilledAt(v.used, p - v.first, Span(v.arenas[p]), false);
    var w := ReleasePages(v, p);
    forall q | p <= q < p + Span(v.arenas[p]) ensures q !in v.others { assert Covers(v, p, q); }
    forall q | InPool(w, q) && w.used[q - w.first] && q !in w.others ensures exists r :: Covers(w, r, q) {
      assert InPool(v, q);
      var r :| Covers(v, r, q);
      assert Covers(w, r, q);
    }
  }

  // ---------------------------------------------------------------- the blocks of one arena

  function Blocks(p: int, k: nat): (r: seq<int>)
    requires k < DESC_CNT
    ensures |r| == PerArena(k)
  {
    Layout(k);
    seq(PerArena(k), i => BlockAt(p, k, i))
  }

  lemma {:induction false} BlocksAre(p: int, k: nat)
    requires k < DESC_CNT
    ensures Distinct(Blocks(p, k))
    ensures forall b :: b in Blocks(p, k) <==> Page(b) == p && IsBlock(b, k)
  {
    hide PerArena, IsBlock;
    var s := Blocks(p, k);
    forall b | b in s ensures Page(b) == p && IsBlock(b, k) {
      var i: int :| 0 <= i < |s| && s[i] == b;
      BlockAtIs(p, k, i);
    }
    forall b | Page(b) == p && IsBlock(b, k) ensures b in s {
      IsBlockAt(b, k);
      assert s[(Ofs(b) - HEADER) / BlockSize(k)] == b;
    }
    forall i, j | 0 <= i < j < |s| ensures s[i] != s[j] {
      MulMono(i + 1, j, BlockSize(k));
      assert (i + 1) * BlockSize(k) == i * BlockSize(k) + BlockSize(k);
    }
  }

  function Elems(s: seq<int>): set<int> {
    set b | b in s
  }

  lemma {:induction false} SetSize(s: seq<int>)
    requires Distinct(s)
    ensures |Elems(s)| == |s|
  {
    if s != [] {
      SetSize(s[1..]);
      assert Elems(s) == Elems(s[1..]) + {s[0]};
    }
  }

  lemma {:induction false} SubsetSize(a: set<int>, b: set<int>)
    requires a <= b
    ensures |a| <= |b| && (|a| == |b| ==> a == b)
  {
    assert b == a + (b - a);
    assert |b| == |a| + |b - a|;
  }

  /** When every block of an arena is free, they are all on the list; and no arena has more free blocks than blocks. */
  lemma {:induction false} Pigeonhole(list: seq<int>, p: int, k: nat)
    requires k < DESC_CNT && forall b | b in list && Page(b) == p :: IsBlock(b, k)
    ensures |FreeIn(list, p)| <= PerArena(k)
    ensures |FreeIn(list, p)| == PerArena(k) ==> forall b | b in Blocks(p, k) :: b in list
  {
    BlocksAre(p, k);
    SetSize(Blocks(p, k));
    var all := Elems(Blocks(p, k));
    SubsetSize(FreeIn(list, p), all);
    forall b | b in Blocks(p, k) && |FreeIn(list, p)| == PerArena(k) ensures b in list {
      assert b in all;
    }
  }

  /** `s` without the elements of `gone`. */
  function Minus(s: seq<int>, gone: set<int>): seq<int> {
    if s == [] then [] else (if s[0] in gone then [] else [s[0]]) + Minus(s[1..], gone)
  }

  lemma {:induction false} MinusHas(s: seq<int>, gone: set<int>)
    ensures forall b :: b in Minus(s, gone) <==> b in s && b !in gone
    ensures Distinct(s) ==> Distinct(Minus(s, gone))
  {
    if s != [] {
      MinusHas(s[1..], gone);
      assert forall b :: b in s <==> b == s[0] || b in s[1..];
    }
  }

  lemma {:induction false} MinusMore(s: seq<int>, gone: set<int>, b: int)
    ensures Minus(Minus(s, gone), {b}) == Minus(s, gone + {b})
  {
    if s != [] {
      MinusMore(s[1..], gone, b);
      var rest := Minus(s[1..], gone);
      if s[0] in gone {
        assert Minus(s, gone) == rest;
      } else {
        assert ([s[0]] + rest)[1..] == rest;
      }
    }
  }

  // ---------------------------------------------------------------- what each step keeps

  lemma {:induction false} BigBlockIs(p: int)
    ensures Page(BigBlock(p)) == p && Ofs(BigBlock(p)) == HEADER
  {
  }

  /** A request for whole pages is met. */
  function TakeBig(v: View, p: int, n: nat): View
    requires v.first <= p && p + n <= v.first + |v.used|
  {
    TakePages(v, p, Big(n)).(live := v.live + {BigBlock(p)})
  }

  lemma {:induction false} TakeBigPages(v: View, p: int, n: nat)
    requires Inv(v) && n >= 1 && v.first <= p && p + n <= v.first + |v.used|
    requires Bitmap.AllAre(v.used, p - v.first, n, false)
    ensures var w := TakeBig(v, p, n); PagesApart(w) && PagesKept(w) && p !in v.arenas && 0 !in v.arenas
  {
    hide Page, Ofs, IsBlock, PerArena, Bitmap.Filled, FreeOk, CountsOk, LiveOk, BlocksKept, InUseBut;
    TakePagesApart(v, p, Big(n));
    TakePagesKept(v, p, Big(n));
    SamePages(TakePages(v, p, Big(n)), TakeBig(v, p, n));
  }

  lemma {:induction false} TakeBigKeeps(v: View, p: int, n: nat)
    requires Inv(v) && n >= 1 && v.first <= p && p + n <= v.first + |v.used|
    requires Bitmap.AllAre(v.used, p - v.first, n, false)
    ensures Inv(TakeBig(v, p, n)) && BigBlock(p) !in v.live
  {
    hide Page, Ofs, BigBlock, IsBlock, PerArena, Bitmap.Filled, Bitmap.AllAre, PagesApart, PagesKept;
    TakeBigPages(v, p, n);
    BigBlockIs(p);
    var w := TakeBig(v, p, n);
    forall b, k: nat | SmallIn(w, b, k) ensures SmallIn(v, b, k) {}
  }

  /** What is said about pages does not look at the blocks in use or at the free lists. */
  lemma {:induction false} SamePages(v: View, w: View)
    requires PagesApart(v) && PagesKept(v) && w.first == v.first && w.used == v.used && w.others == v.others
    requires w.arenas.Keys == v.arenas.Keys && forall p | p in v.arenas :: Span(w.arenas[p]) == Span(v.arenas[p])
    ensures PagesApart(w) && PagesKept(w)
  {
    forall p, q ensures Covers(v, p, q) == Covers(w, p, q) {}
    forall q ensures InPool(v, q) == InPool(w, q) {}
    forall q | InPool(w, q) && w.used[q - w.first] && q !in w.others ensures exists p :: Covers(w, p, q) {
      assert InPool(v, q);
      var p :| Covers(v, p, q);
      assert Covers(w, p, q);
    }
  }

  /** A new page is cut into blocks. */
  function AddArena(v: View, p: int, k: nat): View
    requires k < DESC_CNT && |v.free| == DESC_CNT && v.first <= p < v.first + |v.used|
  {
    TakePages(v, p, Small(k, PerArena(k))).(free := v.free[k := Blocks(p, k)])
  }

  lemma {:induction false} AddArenaPages(v: View, p: int, k: nat)
    requires Inv(v) && k < DESC_CNT && |v.free| == DESC_CNT && v.first <= p < v.first + |v.used| && !v.used[p - v.first]
    ensures var w := AddArena(v, p, k); PagesApart(w) && PagesKept(w) && p !in v.arenas && 0 !in v.arenas
  {
    hide Page, Ofs, IsBlock, PerArena, Bitmap.Filled, FreeOk, CountsOk, LiveOk, BlocksKept, InUseBut;
    var a := Small(k, PerArena(k));
    TakePagesApart(v, p, a);
    TakePagesKept(v, p, a);
    SamePages(TakePages(v, p, a), AddArena(v, p, k));
  }

  lemma {:induction false} AddArenaKeeps(v: View, p: int, k: nat)
    requires Inv(v) && k < DESC_CNT && v.free[k] == []
    requires v.first <= p < v.first + |v.used| && !v.used[p - v.first]
    ensures var w := AddArena(v, p, k); Core(w) && InUseBut(w, p)
  {
    hide Page, Ofs, IsBlock, PerArena, Bitmap.Filled, PagesApart, PagesKept, Blocks;
    AddArenaPages(v, p, k);
    var w := AddArena(v, p, k);
    BlocksAre(p, k);
    SetSize(Blocks(p, k));
    assert FreeIn(Blocks(p, k), p) == Elems(Blocks(p, k));
    forall r | r != p ensures FreeIn(Blocks(p, k), r) == {} && FreeIn([], r) == {} {}
    forall b, j: nat | SmallIn(w, b, j) && Page(b) != p ensures SmallIn(v, b, j) {}
  }

  /** The first block of a free list is handed out. */
  function Pop(v: View, k: nat): View
    requires k < DESC_CNT && |v.free| == DESC_CNT && v.free[k] != []
    requires Page(v.free[k][0]) in v.arenas && v.arenas[Page(v.free[k][0])].Small?
    requires v.arenas[Page(v.free[k][0])].freeCnt > 0
  {
    var b := v.free[k][0];
    v.(free := v.free[k := v.free[k][1..]],
       arenas := v.arenas[Page(b) := Small(k, v.arenas[Page(b)].freeCnt - 1)],
       live := v.live + {b})
  }

  ghost predicate Poppable(v: View, k: nat) {
    && k < DESC_CNT && |v.free| == DESC_CNT && v.free[k] != [] && SmallIn(v, v.free[k][0], k)
    && 0 < v.arenas[Page(v.free[k][0])].freeCnt <= PerArena(k)
  }

  lemma {:induction false} PopFree(v: View, k: nat)
    requires FreeOk(v) && Poppable(v, k)
    ensures FreeOk(Pop(v, k)) && v.free[k][0] !in v.live
  {
    hide Page, Ofs, IsBlock, PerArena;
    var w := Pop(v, k);
    assert v.free[k][0] in v.free[k];
    forall j: nat, c | j < DESC_CNT && c in w.free[j] ensures SmallIn(w, c, j) && IsBlock(c, j) && c !in w.live {
      assert c in v.free[j] && SmallIn(v, c, j);
    }
  }

  lemma {:induction false} PopCounts(v: View, k: nat)
    requires CountsOk(v) && FreeOk(v) && Poppable(v, k)
    ensures CountsOk(Pop(v, k))
  {
    hide Page, Ofs, IsBlock, PerArena;
    var b, p := v.free[k][0], Page(v.free[k][0]);
    var rest := v.free[k][1..];
    assert b in FreeIn(v.free[k], p);
    assert FreeIn(rest, p) == FreeIn(v.free[k], p) - {b};
    forall r | r != p ensures FreeIn(rest, r) == FreeIn(v.free[k], r) {}
  }

  lemma {:induction false} PopLive(v: View, k: nat)
    requires FreeOk(v) && LiveOk(v) && BlocksKept(v) && Poppable(v, k)
    ensures LiveOk(Pop(v, k)) && BlocksKept(Pop(v, k))
  {
    hide Page, Ofs, IsBlock, PerArena;
    var w := Pop(v, k);
    forall c, j: nat ensures SmallIn(w, c, j) == SmallIn(v, c, j) {}
  }

  lemma {:induction false} PopKeeps(v: View, k: nat)
    requires Core(v) && k < DESC_CNT && v.free[k] != []
    requires var p := Page(v.free[k][0]);
      InUseBut(v, p) && SmallIn(v, v.free[k][0], k) && v.arenas[p].freeCnt <= PerArena(k)
    ensures Poppable(v, k) && Inv(Pop(v, k)) && v.free[k][0] !in v.live
  {
    hide Page, Ofs, IsBlock, PerArena, PagesApart, PagesKept, FreeOk, LiveOk, BlocksKept;
    var b, p := v.free[k][0], Page(v.free[k][0]);
    assert b in FreeIn(v.free[k], p);
    PopFree(v, k);
    PopCounts(v, k);
    PopLive(v, k);
    SamePages(v, Pop(v, k));
  }

  /** A block goes back to its free list. */
  function Push(v: View, b: int): View
    requires |v.free| == DESC_CNT && Page(b) in v.arenas && v.arenas[Page(b)].Small?
    requires v.arenas[Page(b)].desc < DESC_CNT
  {
    var a := v.arenas[Page(b)];
    v.(free := v.free[a.desc := [b] + v.free[a.desc]],
       arenas := v.arenas[Page(b) := Small(a.desc, a.freeCnt + 1)],
       live := v.live - {b})
  }

  /** An arena whose blocks are all free is taken apart. */
  function DropArena(v: View, p: int): View
    requires |v.free| == DESC_CNT && p in v.arenas && v.arenas[p].Small? && v.arenas[p].desc < DESC_CNT
    requires v.first <= p < v.first + |v.used|
  {
    var k := v.arenas[p].desc;
    ReleasePages(v, p).(free := v.free[k := Minus(v.free[k], Elems(Blocks(p, k)))])
  }

  function DropBig(v: View, p: int): View
    requires p in v.arenas && v.arenas[p].Big? && v.first <= p && p + Span(v.arenas[p]) <= v.first + |v.used|
  {
    ReleasePages(v, p).(live := v.live - {BigBlock(p)})
  }

  ghost predicate Pushable(v: View, b: int) {
    b in v.live && exists k: nat :: k < DESC_CNT && SmallIn(v, b, k) && IsBlock(b, k)
  }

  lemma {:induction false} PushFree(v: View, b: int)
    requires FreeOk(v) && Pushable(v, b)
    ensures FreeOk(Push(v, b))
  {
    hide Page, Ofs, IsBlock, PerArena;
    var w := Push(v, b);
    forall c, j: nat ensures SmallIn(w, c, j) == SmallIn(v, c, j) {}
  }

  lemma {:induction false} PushCounts(v: View, b: int)
    requires CountsOk(v) && FreeOk(v) && Pushable(v, b)
    ensures CountsOk(Push(v, b))
  {
    hide Page, Ofs, IsBlock, PerArena;
    var p := Page(b);
    var k := v.arenas[p].desc;
    var more := [b] + v.free[k];
    assert FreeIn(more, p) == FreeIn(v.free[k], p) + {b};
    forall r | r != p ensures FreeIn(more, r) == FreeIn(v.free[k], r) {}
  }

  lemma {:induction false} PushLive(v: View, b: int)
    requires FreeOk(v) && LiveOk(v) && BlocksKept(v) && Pushable(v, b)
    ensures LiveOk(Push(v, b)) && BlocksKept(Push(v, b))
  {
    hide Page, Ofs, IsBlock, PerArena, BigBlock;
    var w := Push(v, b);
    forall p ensures Page(BigBlock(p)) == p { BigBlockIs(p); }
    forall c, j: nat ensures SmallIn(w, c, j) == SmallIn(v, c, j) {}
  }

  lemma {:induction false} PushKeeps(v: View, b: int)
    requires Inv(v) && b in v.live && v.arenas[Page(b)].Small?
    ensures v.arenas[Page(b)].desc < DESC_CNT && Core(Push(v, b)) && InUseBut(Push(v, b), Page(b))
  {
    hide Page, Ofs, IsBlock, PerArena, PagesApart, PagesKept, FreeOk, BlocksKept;
    assert SmallIn(v, b, v.arenas[Page(b)].desc);
    PushFree(v, b);
    PushCounts(v, b);
    PushLive(v, b);
    SamePages(v, Push(v, b));
  }

  ghost predicate Idle(v: View, p: int) {
    && |v.free| == DESC_CNT && p in v.arenas && v.arenas[p].Small? && v.arenas[p].desc < DESC_CNT
    && forall b | b in Blocks(p, v.arenas[p].desc) :: b in v.free[v.arenas[p].desc]
  }

  /** An arena whose count reaches blocks_per_arena has every block on the free list, so list_remove may take each
      off. */
  lemma {:induction false} FullIsIdle(v: View, p: int)
    requires FreeOk(v) && CountsOk(v) && p in v.arenas && v.arenas[p].Small?
    requires v.arenas[p].freeCnt >= PerArena(v.arenas[p].desc)
    ensures v.arenas[p].freeCnt == PerArena(v.arenas[p].desc) && Idle(v, p)
  {
    hide Page, IsBlock, PerArena, Blocks;
    var k := v.arenas[p].desc;
    forall b | b in v.free[k] && Page(b) == p ensures IsBlock(b, k) {}
    Pigeonhole(v.free[k], p, k);
  }

  /** What is left after an idle arena is dropped: its blocks are off the list, and no block in use was in it. */
  lemma {:induction false} DropArenaBlocks(v: View, p: int)
    requires v.first <= p < v.first + |v.used| && FreeOk(v) && CountsOk(v) && LiveOk(v) && BlocksKept(v) && Idle(v, p)
    ensures var w := DropArena(v, p); FreeOk(w) && CountsOk(w) && LiveOk(w) && BlocksKept(w)
  {
    hide FreeOk, CountsOk, LiveOk, BlocksKept, DropArena, Idle;
    DroppedList(v, p);
    DropArenaFree(v, p);
    DropArenaCounts(v, p);
    DropArenaLive(v, p);
  }

  /** The blocks of an idle arena, and no others, come off its free list; what is on it lies elsewhere. */
  ghost predicate Dropped(v: View, p: int, w: View) {
    && Idle(v, p) && |w.free| == DESC_CNT && w.arenas == v.arenas - {p} && w.live == v.live
    && var k := v.arenas[p].desc;
    && (forall j: nat | j < DESC_CNT && j != k :: w.free[j] == v.free[j])
    && (forall b :: b in w.free[k] <==> b in v.free[k] && !(Page(b) == p && IsBlock(b, k)))
    && (forall b | Page(b) == p && IsBlock(b, k) :: b in v.free[k])
    && (Distinct(v.free[k]) ==> Distinct(w.free[k]))
  }

  lemma {:induction false} DroppedList(v: View, p: int)
    requires v.first <= p < v.first + |v.used| && Idle(v, p)
    ensures Dropped(v, p, DropArena(v, p))
  {
    hide Page, IsBlock, PerArena, Blocks, Minus, Bitmap.Filled;
    var k := v.arenas[p].desc;
    BlocksAre(p, k);
    MinusHas(v.free[k], Elems(Blocks(p, k)));
  }

  lemma {:induction false} DropArenaFree(v: View, p: int)
    requires v.first <= p < v.first + |v.used| && Idle(v, p) && FreeOk(v) && Dropped(v, p, DropArena(v, p))
    ensures FreeOk(DropArena(v, p))
  {
    var w := DropArena(v, p);
    assert w.live == v.live && w.arenas == v.arenas - {p};
    hide Page, IsBlock, PerArena, DropArena, Idle;
    forall k: nat, b | k < DESC_CNT && b in w.free[k] ensures SmallIn(w, b, k) && IsBlock(b, k) && b !in w.live {
      assert b in v.free[k] && SmallIn(v, b, k) && IsBlock(b, k);
    }
  }

  lemma {:induction false} DropArenaCounts(v: View, p: int)
    requires v.first <= p < v.first + |v.used| && Idle(v, p) && CountsOk(v) && Dropped(v, p, DropArena(v, p))
    ensures CountsOk(DropArena(v, p))
  {
    hide Page, IsBlock, PerArena, DropArena;
    var w, k := DropArena(v, p), v.arenas[p].desc;
    forall r | r != p ensures FreeIn(w.free[k], r) == FreeIn(v.free[k], r) {}
  }

  lemma {:induction false} DropArenaLive(v: View, p: int)
    requires v.first <= p < v.first + |v.used| && Idle(v, p) && FreeOk(v) && LiveOk(v) && BlocksKept(v)
    requires Dropped(v, p, DropArena(v, p))
    ensures LiveOk(DropArena(v, p)) && BlocksKept(DropArena(v, p))
  {
    hide Page, IsBlock, PerArena, DropArena;
    var w, k := DropArena(v, p), v.arenas[p].desc;
    forall b | b in v.live ensures Page(b) != p { assert Placed(b, v.arenas[Page(b)]); }
    forall c, j: nat | SmallIn(w, c, j) ensures SmallIn(v, c, j) && Page(c) != p {}
  }

  lemma {:induction false} DropArenaKeeps(v: View, p: int)
    requires Core(v) && InUseBut(v, p) && p in v.arenas && v.arenas[p].Small?
    requires v.arenas[p].freeCnt >= PerArena(v.arenas[p].desc)
    ensures Idle(v, p) && v.first <= p < v.first + |v.used| && Inv(DropArena(v, p))
  {
    hide Page, Ofs, IsBlock, PerArena, Blocks, Minus, Bitmap.Filled, FreeOk, LiveOk, BlocksKept;
    FullIsIdle(v, p);
    DropArenaBlocks(v, p);
    ReleasePagesApart(v, p);
    ReleasePagesKept(v, p);
    SamePages(ReleasePages(v, p), DropArena(v, p));
  }

  lemma {:induction false} DropBigKeeps(v: View, p: int)
    requires Inv(v) && p in v.arenas && v.arenas[p].Big?
    ensures v.first <= p && p + Span(v.arenas[p]) <= v.first + |v.used| && Inv(DropBig(v, p)) && BigBlock(p) in v.live
  {
    DropBigPages(v, p);
    hide Page, Ofs, IsBlock, PerArena, BigBlock, Bitmap.Filled, PagesApart, PagesKept;
    var w := DropBig(v, p);
    BigBlockIs(p);
    forall b | b in v.live && Page(b) == p ensures b == BigBlock(p) { OnPage(b); }
    forall r ensures Page(BigBlock(r)) == r { BigBlockIs(r); }
    forall c, j: nat | SmallIn(w, c, j) ensures SmallIn(v, c, j) && Page(c) != p {}
  }

  lemma {:induction false} OnPage(b: int)
    ensures b == Page(b) * PGSIZE + Ofs(b) && (Ofs(b) == HEADER ==> b == BigBlock(Page(b)))
  {
  }

  lemma {:induction false} DropBigPages(v: View, p: int)
    requires PagesApart(v) && PagesKept(v) && p in v.arenas && v.arenas[p].Big?
    ensures var w := DropBig(v, p); PagesApart(w) && PagesKept(w)
  {
    ReleasePagesApart(v, p);
    ReleasePagesKept(v, p);
    hide Page, Bitmap.Filled;
    SamePages(ReleasePages(v, p), DropBig(v, p));
  }

  // ---------------------------------------------------------------- what the invariant says to callers

  /** block_size. */
  function Capacity(v: View, b: int): int
    requires LiveOk(v) && b in v.live
  {
    var a := v.arenas[Page(b)];
    if a.Small? then BlockSize(a.desc) else PGSIZE * a.pageCnt - Ofs(b)
  }

  /** Byte `x` belongs to block `b`. */
  ghost predicate Holds(v: View, b: int, x: int)
    requires LiveOk(v)
  {
    b in v.live && b <= x < b + Capacity(v, b)
  }

  /** A byte of a block lies in a page of the block's arena, past the header. */
  lemma {:induction false} HoldsCovered(v: View, b: int, x: int)
    requires LiveOk(v) && Holds(v, b, x)
    ensures Covers(v, Page(b), Page(x)) && x >= Page(b) * PGSIZE + HEADER
    ensures v.arenas[Page(b)].Small? ==> Page(x) == Page(b)
  {
    var a := v.arenas[Page(b)];
    if a.Small? {
      IsBlockAt(b, a.desc);
      var i := (Ofs(b) - HEADER) / BlockSize(a.desc);
      BlockAtIs(Page(b), a.desc, i);
      assert (i + 1) * BlockSize(a.desc) == i * BlockSize(a.desc) + BlockSize(a.desc);
    }
  }

  /** No byte belongs to two blocks in use; nor, below, to a page somebody else holds or to an arena header. */
  lemma {:induction false} BlocksDisjoint(v: View, b: int, c: int, x: int)
    requires Inv(v) && Holds(v, b, x) && Holds(v, c, x)
    ensures b == c
  {
    HoldsCovered(v, b, x);
    HoldsCovered(v, c, x);
    assert Page(b) == Page(c);
    OnPage(b);
    OnPage(c);
    var a := v.arenas[Page(b)];
    if a.Small? {
      SameBlock(a.desc, b, c, x);
    }
  }

  lemma {:induction false} SameBlock(k: nat, b: int, c: int, x: int)
    requires k < DESC_CNT && IsBlock(b, k) && IsBlock(c, k) && Page(b) == Page(c)
    requires b <= x < b + BlockSize(k) && c <= x < c + BlockSize(k)
    ensures b == c
  {
    IsBlockAt(b, k);
    IsBlockAt(c, k);
    SameSlot(Page(b) * PGSIZE + HEADER, BlockSize(k), (Ofs(b) - HEADER) / BlockSize(k),
        (Ofs(c) - HEADER) / BlockSize(k), x);
  }

  lemma {:induction false} SameSlot(o: int, s: int, i: int, j: int, x: int)
    requires s > 0 && o + i * s <= x < o + i * s + s && o + j * s <= x < o + j * s + s
    ensures i == j
  {
    assert (i + 1) * s == i * s + s && (j + 1) * s == j * s + s;
    if i < j { MulMono(i + 1, j, s); }
    if j < i { MulMono(j + 1, i, s); }
  }

  lemma {:induction false} BlockApartFromOthers(v: View, b: int, x: int)
    requires Inv(v) && Holds(v, b, x)
    ensures InPool(v, Page(x)) && v.used[Page(x) - v.first] && Page(x) !in v.others
  {
    hide PagesApart, PagesKept, FreeOk, CountsOk, LiveOk, BlocksKept, InUseBut, Page, Capacity;
    HoldsCovered(v, b, x);
    CoveredUsed(v, Page(b), Page(x));
  }

  lemma {:induction false} CoveredUsed(v: View, p: int, q: int)
    requires PagesApart(v) && Covers(v, p, q)
    ensures InPool(v, q) && v.used[q - v.first] && q !in v.others
  {
  }

  lemma {:induction false} BlockApartFromHeaders(v: View, b: int, x: int, p: int)
    requires Inv(v) && Holds(v, b, x) && p in v.arenas
    ensures !(p * PGSIZE <= x < p * PGSIZE + HEADER)
  {
    HoldsCovered(v, b, x);
    if p != Page(b) && Page(x) == p {
      assert Covers(v, p, p);
    }
  }

  /** When everything was freed, malloc holds no page: what is used is held by others. */
  lemma {:induction false} AllFreed(v: View)
    requires Inv(v) && v.live == {}
    ensures v.arenas == map[] && (forall k: nat | k < DESC_CNT :: v.free[k] == [])
    ensures forall q | InPool(v, q) :: v.used[q - v.first] <==> q in v.others
  {
    forall p ensures p !in v.arenas {
      if p in v.arenas { NoIdleArena(v, p); }
    }
    forall k: nat, b | k < DESC_CNT ensures b !in v.free[k] {
      assert b in v.free[k] ==> SmallIn(v, b, k);
    }
    forall k: nat | k < DESC_CNT ensures v.free[k] == [] { NothingIn(v.free[k]); }
  }

  lemma {:induction false} NothingIn(s: seq<int>)
    ensures s != [] ==> exists b :: b in s
  {
    if s != [] {
      var b: int := s[0];
      assert b in s;
    }
  }

  lemma {:induction false} Pick<T>(s: set<T>) returns (b: T)
    requires |s| > 0
    ensures b in s
  {
    b :| b in s;
  }

  lemma {:induction false} NoPageZero(v: View)
    requires Inv(v)
    ensures 0 !in v.arenas && 0 !in v.live && |v.free| == DESC_CNT
  {
  }

  /** An arena always holds a block in use. */
  lemma {:induction false} NoIdleArena(v: View, p: int)
    requires Inv(v) && p in v.arenas
    ensures exists b :: b in v.live && Page(b) == p
  {
    hide Page, BigBlock, IsBlock, PerArena, Blocks, PagesApart, PagesKept;
    NoPageZero(v);
    if v.arenas[p].Big? {
      BigBlockIs(p);
      assert BigBlock(p) in v.live;
    } else {
      var k := v.arenas[p].desc;
      BlocksAre(p, k);
      SetSize(Blocks(p, k));
      var all := Elems(Blocks(p, k));
      var rest := all - FreeIn(v.free[k], p);
      assert all == FreeIn(v.free[k], p) + rest;
      var b := Pick(rest);
      assert SmallIn(v, b, k);
    }
  }

  // ---------------------------------------------------------------- malloc and free, as steps

  /** DIV_ROUND_UP (size + sizeof *a, PGSIZE), in 32 bits. */
  function PageCnt(size: int): (n: nat)
    requires 0 <= size
  {
    ((size + HEADER) % B32 + PGSIZE - 1) % B32 / PGSIZE
  }

  /** As few pages as hold header and block, both sums taken modulo 2^32; none when rounding up wraps. */
  lemma {:induction false} PageCntIs(size: int)
    requires 0 <= size < B32
    ensures var bytes := if size < B32 - HEADER then size + HEADER else size + HEADER - B32;
      if bytes + PGSIZE - 1 < B32 then PGSIZE * (PageCnt(size) - 1) < bytes <= PGSIZE * PageCnt(size)
      else PageCnt(size) == 0
  {
  }

  /** The pages hold the request exactly when `size + sizeof *a` does not wrap; the wrapped requests get one page. */
  lemma {:induction false} PageCntExact(size: int)
    requires 1024 < size < B32 && PageCnt(size) > 0
    ensures PGSIZE * PageCnt(size) - HEADER >= size <==> size <= B32 - HEADER
    ensures size > B32 - HEADER ==> PageCnt(size) == 1
  {
  }

  ghost predicate Fits(size: int, k: nat) {
    k < DESC_CNT && size <= BlockSize(k) && forall j: nat | j < k :: BlockSize(j) < size
  }

  /** `p` begins the first group of `n` free pages. */
  ghost predicate FirstFree(v: View, n: nat, p: int) {
    v.first <= p && Bitmap.FirstGroup(v.used, 0, n, false, p - v.first)
  }

  /** malloc (size) met by block `b`. */
  ghost predicate Taken(v: View, size: int, b: int, w: View) {
    && 0 < size < B32 && |v.free| == DESC_CNT
    && if size > 1024 then
         && PageCnt(size) > 0 && FirstFree(v, PageCnt(size), Page(b)) && b == BigBlock(Page(b))
         && w == TakeBig(v, Page(b), PageCnt(size))
       else
         exists k: nat :: Fits(size, k) && TakenSmall(v, k, b, w)
  }

  ghost predicate TakenSmall(v: View, k: nat, b: int, w: View) {
    && k < DESC_CNT && |v.free| == DESC_CNT
    && if v.free[k] != [] then
         b == v.free[k][0] && Poppable(v, k) && w == Pop(v, k)
       else
         && FirstFree(v, 1, Page(b)) && b == BlockAt(Page(b), k, 0) && Poppable(AddArena(v, Page(b), k), k)
         && w == Pop(AddArena(v, Page(b), k), k)
  }

  /** malloc (size) cannot be met. */
  ghost predicate OutOfMemory(v: View, size: int) {
    || size <= 0
    || (size > 1024 && (PageCnt(size) == 0 || Bitmap.NoGroup(v.used, 0, PageCnt(size), false)))
    || (&& size <= 1024 && Bitmap.NoGroup(v.used, 0, 1, false)
        && exists k: nat :: Fits(size, k) && k < |v.free| && v.free[k] == [])
  }

  /** free (b). */
  ghost function Freed(v: View, b: int): View
    requires Inv(v) && b in v.live
  {
    var p := Page(b);
    if v.arenas[p].Small? then
      PushKeeps(v, b);
      var w := Push(v, b);
      if w.arenas[p].freeCnt >= PerArena(w.arenas[p].desc) then
        DropArenaKeeps(w, p);
        DropArena(w, p)
      else w
    else
      DropBigKeeps(v, p);
      DropBig(v, p)
  }

  /** What a call did not take or give back keeps its place and size. */
  ghost predicate SameFor(v: View, w: View, c: int) {
    Inv(v) && Inv(w) && c in v.live && c in w.live && Capacity(w, c) == Capacity(v, c)
  }

  lemma {:induction false} TakenKeeps(v: View, size: int, b: int, w: View)
    requires Inv(v) && Taken(v, size, b, w)
    ensures Inv(w) && b !in v.live && w.live == v.live + {b} && w.others == v.others && w.first == v.first
  {
    hide PageCnt, Page, Ofs, IsBlock, PerArena, BigBlock, PagesApart, PagesKept, FreeOk, CountsOk, LiveOk, BlocksKept;
    hide Bitmap.Filled;
    if size > 1024 {
      TakeBigKeeps(v, Page(b), PageCnt(size));
    } else {
      var k: nat :| Fits(size, k) && TakenSmall(v, k, b, w);
      TakenSmallKeeps(v, k, b, w);
    }
  }

  lemma {:induction false} TakenSmallKeeps(v: View, k: nat, b: int, w: View)
    requires Inv(v) && TakenSmall(v, k, b, w)
    ensures Inv(w) && b !in v.live && w.live == v.live + {b} && w.others == v.others && w.first == v.first
    ensures SmallIn(w, b, k) && IsBlock(b, k)
  {
    hide Page, Ofs, IsBlock, PerArena, PagesApart, PagesKept, CountsOk, LiveOk, BlocksKept, Bitmap.Filled;
    if v.free[k] != [] {
      NoPageZero(v);
      assert SmallIn(v, v.free[k][0], k);
      PopKeeps(v, k);
    } else {
      var p := Page(b);
      AddArenaKeeps(v, p, k);
      BlockAtIs(p, k, 0);
      var u := AddArena(v, p, k);
      assert u.free[k][0] == b;
      PopKeeps(u, k);
    }
  }

  lemma {:induction false} FreedKeeps(v: View, b: int)
    requires Inv(v) && b in v.live
    ensures var w := Freed(v, b); Inv(w) && w.live == v.live - {b} && w.others == v.others && w.first == v.first
  {
    hide Page, Ofs, IsBlock, PerArena, PagesApart, PagesKept, CountsOk, BlocksKept, Bitmap.Filled;
    var p := Page(b);
    if v.arenas[p].Small? {
      PushKeeps(v, b);
      var w := Push(v, b);
      if w.arenas[p].freeCnt >= PerArena(w.arenas[p].desc) { DropArenaKeeps(w, p); }
    } else {
      DropBigKeeps(v, p);
      OnPage(b);
    }
  }

  // ---------------------------------------------------------------- malloc and free undo each other

  lemma {:induction false} PopPush(v: View, k: nat)
    requires Poppable(v, k) && v.free[k][0] !in v.live
    ensures var b, w := v.free[k][0], Pop(v, k);
      Page(b) in w.arenas && w.arenas[Page(b)].Small? && w.arenas[Page(b)].desc == k && Push(w, b) == v
  {
    hide Page, PerArena;
    var b := v.free[k][0];
    var w := Pop(v, k);
    assert [b] + w.free[k] == v.free[k];
    assert w.live - {b} == v.live;
  }

  lemma {:induction false} PushPop(v: View, b: int, k: nat)
    requires |v.free| == DESC_CNT && k < DESC_CNT && SmallIn(v, b, k) && b in v.live
    requires v.arenas[Page(b)].freeCnt < PerArena(k)
    ensures var w := Push(v, b); Poppable(w, k) && w.free[k][0] == b && Pop(w, k) == v
  {
    hide Page, PerArena;
    var w := Push(v, b);
    assert w.free[k][1..] == v.free[k];
    assert w.live + {b} == v.live;
  }

  lemma {:induction false} MinusAll(s: seq<int>, gone: set<int>)
    requires forall i | 0 <= i < |s| :: s[i] in gone
    ensures Minus(s, gone) == []
  {
    if s != [] {
      assert s[0] in gone;
      MinusAll(s[1..], gone);
    }
  }

  lemma {:induction false} AddDrop(v: View, p: int, k: nat)
    requires k < DESC_CNT && |v.free| == DESC_CNT && v.free[k] == [] && p !in v.arenas
    requires v.first <= p < v.first + |v.used| && Bitmap.AllAre(v.used, p - v.first, 1, false)
    ensures DropArena(AddArena(v, p, k), p) == v
  {
    hide Blocks, Bitmap.Filled, Minus;
    MinusAll(Blocks(p, k), Elems(Blocks(p, k)));
    Bitmap.FillBack(v.used, p - v.first, 1);
  }

  lemma {:induction false} BigDrop(v: View, p: int, n: nat)
    requires v.first <= p && p + n <= v.first + |v.used| && Bitmap.AllAre(v.used, p - v.first, n, false)
    requires p !in v.arenas && BigBlock(p) !in v.live
    ensures DropBig(TakeBig(v, p, n), p) == v
  {
    hide Bitmap.Filled, BigBlock;
    Bitmap.FillBack(v.used, p - v.first, n);
    assert v.live + {BigBlock(p)} - {BigBlock(p)} == v.live;
  }

  lemma {:induction false} SmallFreed(v: View, k: nat, b: int, w: View)
    requires Inv(v) && TakenSmall(v, k, b, w) && Inv(w) && b in w.live && b !in v.live
    ensures Freed(w, b) == v
  {
    hide Ofs, IsBlock, PerArena, PagesApart, PagesKept, CountsOk, LiveOk, BlocksKept, Bitmap.Filled, DropArena, Blocks;
    if v.free[k] != [] {
      PopPush(v, k);
      NoPageZero(v);
    } else {
      var p := Page(b);
      AddArenaKeeps(v, p, k);
      AddArenaPages(v, p, k);
      FirstBlock(p, k);
      var u := AddArena(v, p, k);
      PopPush(u, k);
      AddDrop(v, p, k);
    }
  }

  lemma {:induction false} FirstBlock(p: int, k: nat)
    requires k < DESC_CNT
    ensures Blocks(p, k) != [] && Blocks(p, k)[0] == BlockAt(p, k, 0)
  {
  }

  /** malloc, then free of the block, leaves the heap exactly as it was. */
  lemma {:induction false} TakenFreed(v: View, size: int, b: int, w: View)
    requires Inv(v) && Taken(v, size, b, w)
    ensures Inv(w) && b in w.live && Freed(w, b) == v
  {
    hide PageCnt, Page, Ofs, IsBlock, PerArena, BigBlock, PagesApart, PagesKept, FreeOk, CountsOk, LiveOk, BlocksKept;
    hide Bitmap.Filled, TakenSmall, DropBig, DropArena;
    TakenKeeps(v, size, b, w);
    if size > 1024 {
      TakeBigPages(v, Page(b), PageCnt(size));
      BigDrop(v, Page(b), PageCnt(size));
    } else {
      var k: nat :| Fits(size, k) && TakenSmall(v, k, b, w);
      SmallFreed(v, k, b, w);
    }
  }

  /** free of a small block whose arena stays, then malloc of a size that fits it, gives that block back and leaves the
      heap exactly as it was. */
  lemma {:induction false} FreedTaken(v: View, size: int, b: int, k: nat)
    requires Inv(v) && b in v.live && 0 < size && Fits(size, k) && SmallIn(v, b, k)
    requires v.arenas[Page(b)].freeCnt + 1 < PerArena(k)
    ensures Taken(Freed(v, b), size, b, v)
    ensures forall c, w | Taken(Freed(v, b), size, c, w) :: c == b && w == v
  {
    hide Page, Ofs, IsBlock, PerArena, PagesApart, PagesKept, CountsOk, LiveOk, BlocksKept, Bitmap.Filled;
    PushPop(v, b, k);
    assert Freed(v, b) == Push(v, b);
    hide Freed;
    assert TakenSmall(Freed(v, b), k, b, v);
  }

  /** malloc's promise: the block has room for the request exactly when the size, with the arena header, does not
      wrap. */
  lemma {:induction false} TakenEnough(v: View, size: int, b: int, w: View)
    requires Inv(v) && Taken(v, size, b, w) && Inv(w) && b in w.live
    ensures Capacity(w, b) >= size <==> size <= B32 - HEADER
  {
    hide Ofs, IsBlock, PerArena, PagesApart, PagesKept, FreeOk, CountsOk, BlocksKept, Bitmap.Filled;
    if size > 1024 {
      PageCntExact(size);
      BigBlockIs(Page(b));
    } else {
      var k: nat :| Fits(size, k) && TakenSmall(v, k, b, w);
      TakenSmallKeeps(v, k, b, w);
    }
  }

  /** A pool of free pages, none of them malloc's. */
  function Untouched(first: int, pages: nat): View {
    View(first, seq(pages, _ => false), seq(DESC_CNT, _ => []), map[], {}, {})
  }

  lemma {:induction false} UntouchedOk(first: int, pages: nat)
    requires first > 0
    ensures Inv(Untouched(first, pages))
  {
  }

  lemma {:induction false} UntouchedGives(pages: nat)
    requires pages > 0
    ensures Inv(Untouched(1, pages)) && FirstFree(Untouched(1, pages), pages, 1)
    ensures var b := BigBlock(1);
      Page(b) == 1 && Capacity(TakeBig(Untouched(1, pages), 1, pages), b) == pages * PGSIZE - HEADER
  {
  }

  /** It is not for a request of 2^32 - 1 bytes: a pool of one page meets it, with a block of 4084 bytes. */
  lemma {:induction false} TakenShort()
    ensures var v, b := Untouched(1, 1), BigBlock(1);
      var w := TakeBig(v, 1, 1);
      Inv(v) && Taken(v, B32 - 1, b, w) && Capacity(w, b) == 4084
  {
    UntouchedGives(1);
    hide FirstFree, TakeBig, Capacity, Inv;
    assert PageCnt(B32 - 1) == 1;
  }

  /** Two arenas of the same kind and size. */
  predicate Alike(a: Arena, b: Arena) {
    a.Small? == b.Small? && (if a.Small? then a.desc == b.desc else a.pageCnt == b.pageCnt)
  }

  lemma {:induction false} LiveAt(v: View, b: int)
    requires Inv(v) && b in v.live
    ensures LiveOk(v) && |v.free| == DESC_CNT && Page(b) in v.arenas && Placed(b, v.arenas[Page(b)])
  {
    hide PagesApart, PagesKept, FreeOk, BlocksKept, InUseBut, Page, Placed;
  }

  lemma {:induction false} CapacityAlike(v: View, w: View, c: int)
    requires LiveOk(v) && LiveOk(w) && c in v.live && c in w.live && Page(c) in v.arenas && Page(c) in w.arenas
    requires Alike(v.arenas[Page(c)], w.arenas[Page(c)])
    ensures Capacity(w, c) == Capacity(v, c)
  {
    hide LiveOk, Page, Ofs, BlockSize;
  }

  lemma {:induction false} TakenArenas(v: View, size: int, b: int, w: View)
    requires Inv(v) && Taken(v, size, b, w)
    ensures forall q | q in v.arenas :: q in w.arenas && Alike(v.arenas[q], w.arenas[q])
  {
    hide PagesApart, PagesKept, FreeOk, CountsOk, LiveOk, BlocksKept, InUseBut, Page, BigBlock, PageCnt, Bitmap.Filled;
    if size > 1024 {
      TakeBigPages(v, Page(b), PageCnt(size));
    } else {
      var k: nat :| Fits(size, k) && TakenSmall(v, k, b, w);
      TakenSmallArenas(v, k, b, w);
    }
  }

  lemma {:induction false} TakenSmallArenas(v: View, k: nat, b: int, w: View)
    requires Inv(v) && TakenSmall(v, k, b, w)
    ensures forall q | q in v.arenas :: q in w.arenas && Alike(v.arenas[q], w.arenas[q])
  {
    hide PagesApart, PagesKept, FreeOk, CountsOk, LiveOk, BlocksKept, InUseBut, Page, PerArena, Blocks, Bitmap.Filled;
    if v.free[k] == [] { AddArenaPages(v, Page(b), k); }
  }

  lemma {:induction false} TakenSame(v: View, size: int, b: int, w: View, c: int)
    requires Inv(v) && Taken(v, size, b, w) && Inv(w) && c in v.live
    ensures SameFor(v, w, c)
  {
    hide PagesApart, PagesKept, FreeOk, CountsOk, LiveOk, BlocksKept, InUseBut, Taken, Page, Capacity;
    TakenKeeps(v, size, b, w);
    TakenArenas(v, size, b, w);
    LiveAt(v, c);
    LiveAt(w, c);
    CapacityAlike(v, w, c);
  }

  lemma {:induction false} FreedArenas(v: View, b: int)
    requires Inv(v) && b in v.live
    ensures forall q | q in Freed(v, b).arenas :: q in v.arenas && Alike(v.arenas[q], Freed(v, b).arenas[q])
  {
    hide PagesApart, PagesKept, FreeOk, CountsOk, LiveOk, BlocksKept, InUseBut, Page, PerArena, Blocks, Minus, BigBlock;
    hide Bitmap.Filled;
    LiveAt(v, b);
    if v.arenas[Page(b)].Small? { PushKeeps(v, b); } else { DropBigKeeps(v, Page(b)); }
  }

  lemma {:induction false} FreedSame(v: View, b: int, c: int)
    requires Inv(v) && b in v.live && c in v.live && c != b
    ensures SameFor(v, Freed(v, b), c)
  {
    hide PagesApart, PagesKept, FreeOk, CountsOk, LiveOk, BlocksKept, InUseBut, Freed, Page, Capacity;
    FreedKeeps(v, b);
    FreedArenas(v, b);
    LiveAt(v, c);
    LiveAt(Freed(v, b), c);
    CapacityAlike(v, Freed(v, b), c);
  }

  /** A block is less than a page larger than its request. */
  lemma {:induction false} TakenNotMore(v: View, size: int, b: int, w: View)
    requires Inv(v) && Taken(v, size, b, w) && Inv(w) && b in w.live
    ensures size > 1024 ==> Capacity(w, b) < size + PGSIZE
    ensures size <= 1024 ==> Capacity(w, b) <= 1024
  {
    hide Ofs, IsBlock, PerArena, PagesApart, PagesKept, FreeOk, CountsOk, BlocksKept, Bitmap.Filled;
    if size > 1024 {
      BigBlockIs(Page(b));
    } else {
      var k: nat :| Fits(size, k) && TakenSmall(v, k, b, w);
      TakenSmallKeeps(v, k, b, w);
    }
  }

  // ---------------------------------------------------------------- other users of the pool

  predicate Among(q: int, p: int, n: nat) {
    p <= q < p + n
  }

  function PageSet(p: int, n: nat): set<int> {
    set q | p <= q < p + n && Among(q, p, n)
  }

  function OthersTake(v: View, p: int, n: nat): View
    requires v.first <= p && p + n <= v.first + |v.used|
  {
    v.(used := Bitmap.Filled(v.used, p - v.first, n, true), others := v.others + PageSet(p, n))
  }

  function OthersReturn(v: View, p: int, n: nat): View
    requires v.first <= p && p + n <= v.first + |v.used|
  {
    v.(used := Bitmap.Filled(v.used, p - v.first, n, false), others := v.others - PageSet(p, n))
  }

  lemma {:induction false} OthersTakeApart(v: View, p: int, n: nat)
    requires PagesApart(v) && PagesKept(v)
    requires v.first <= p && p + n <= v.first + |v.used| && Bitmap.AllAre(v.used, p - v.first, n, false)
    ensures PagesApart(OthersTake(v, p, n)) && PageSet(p, n) !! v.others
  {
    hide Bitmap.Filled;
    Bitmap.FilledAt(v.used, p - v.first, n, true);
    var w := OthersTake(v, p, n);
    forall r, q | Covers(w, r, q) ensures Covers(v, r, q) && q !in PageSet(p, n) {}
  }

  lemma {:induction false} OthersTakeKept(v: View, p: int, n: nat)
    requires PagesKept(v) && v.first <= p && p + n <= v.first + |v.used|
    ensures PagesKept(OthersTake(v, p, n))
  {
    hide Bitmap.Filled;
    Bitmap.FilledAt(v.used, p - v.first, n, true);
    var w := OthersTake(v, p, n);
    forall q | InPool(w, q) && w.used[q - w.first] && q !in w.others ensures exists r :: Covers(w, r, q) {
      assert InPool(v, q) && !Among(q, p, n);
      var r :| Covers(v, r, q);
      assert Covers(w, r, q);
    }
  }

  lemma {:induction false} OthersTakeKeeps(v: View, p: int, n: nat)
    requires Inv(v) && v.first <= p && p + n <= v.first + |v.used| && Bitmap.AllAre(v.used, p - v.first, n, false)
    ensures Inv(OthersTake(v, p, n)) && PageSet(p, n) !! v.others
  {
    hide PagesApart, PagesKept, FreeOk, CountsOk, LiveOk, BlocksKept, InUseBut, PageSet, Bitmap.Filled;
    OthersTakeApart(v, p, n);
    OthersTakeKept(v, p, n);
    SameBlocks(v, OthersTake(v, p, n));
  }

  lemma {:induction false} OthersReturnApart(v: View, p: int, n: nat)
    requires PagesApart(v) && PagesKept(v) && PageSet(p, n) <= v.others && v.first <= p && p + n <= v.first + |v.used|
    ensures PagesApart(OthersReturn(v, p, n)) && Bitmap.AllAre(v.used, p - v.first, n, true)
  {
    hide Bitmap.Filled;
    Bitmap.FilledAt(v.used, p - v.first, n, false);
    var w := OthersReturn(v, p, n);
    forall i | p - v.first <= i < p - v.first + n ensures v.used[i] { assert i + v.first in PageSet(p, n); }
    forall r, q | Covers(w, r, q) ensures Covers(v, r, q) && !Among(q, p, n) {
      assert Covers(v, r, q);
      assert Among(q, p, n) ==> q in PageSet(p, n);
    }
  }

  lemma {:induction false} OthersReturnKept(v: View, p: int, n: nat)
    requires PagesKept(v) && PageSet(p, n) <= v.others && v.first <= p && p + n <= v.first + |v.used|
    ensures PagesKept(OthersReturn(v, p, n))
  {
    hide Bitmap.Filled;
    Bitmap.FilledAt(v.used, p - v.first, n, false);
    var w := OthersReturn(v, p, n);
    forall q | q in w.others ensures q in v.others && !Among(q, p, n) {}
    forall q | InPool(w, q) && w.used[q - w.first] && q !in w.others ensures exists r :: Covers(w, r, q) {
      assert InPool(v, q) && !Among(q, p, n);
      var r :| Covers(v, r, q);
      assert Covers(w, r, q);
    }
  }

  lemma {:induction false} OthersReturnKeeps(v: View, p: int, n: nat)
    requires Inv(v) && PageSet(p, n) <= v.others && v.first <= p && p + n <= v.first + |v.used|
    ensures Inv(OthersReturn(v, p, n)) && Bitmap.AllAre(v.used, p - v.first, n, true)
  {
    hide PagesApart, PagesKept, FreeOk, CountsOk, LiveOk, BlocksKept, InUseBut, PageSet, Bitmap.Filled, Bitmap.AllAre;
    OthersReturnApart(v, p, n);
    OthersReturnKept(v, p, n);
    SameBlocks(v, OthersReturn(v, p, n));
  }

  /** What is said about blocks does not look at the used map. */
  lemma {:induction false} SameBlocks(v: View, w: View)
    requires FreeOk(v) && CountsOk(v) && LiveOk(v) && BlocksKept(v) && InUseBut(v, 0)
    requires w.free == v.free && w.arenas == v.arenas && w.live == v.live
    ensures FreeOk(w) && CountsOk(w) && LiveOk(w) && BlocksKept(w) && InUseBut(w, 0)
  {
    forall b, k: nat ensures SmallIn(w, b, k) == SmallIn(v, b, k) {}
  }
}
