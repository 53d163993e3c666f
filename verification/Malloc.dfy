/**
 The kernel's block allocator (threads/malloc.c) on top of its page allocator (threads/palloc.c), one pool. Addresses
 are integers and the null pointer is 0. A page that malloc holds has an entry in `arenas`, which stands for the arena
 header at its start. `mem` holds the bytes of the blocks in use. The per-descriptor lock makes each call one step.
 */
module Malloc {
  import opened Basics
  import Bitmap
  import opened HeapModel

  const POISON: int := 0xcc

  /** memset. */
  function Set(mem: int -> int, at: int, n: int, c: int): int -> int {
    x => if at <= x < at + n then c else mem(x)
  }

  lemma {:induction false} SetIs(mem: int -> int, at: int, n: int, c: int)
    ensures forall x :: Set(mem, at, n, c)(x) == if at <= x < at + n then c else mem(x)
  {
  }

  /** memcpy between ranges that do not overlap. */
  function Copy(mem: int -> int, to: int, from: int, n: int): int -> int {
    x => CopyAt(mem, to, from, n, x)
  }

  function CopyAt(mem: int -> int, to: int, from: int, n: int, x: int): int {
    if to <= x < to + n then mem(x - to + from) else mem(x)
  }

  /** The bytes free (b) overwrites: the block, and every byte of a page it gives back. */
  ghost predicate Wiped(v: View, b: int, x: int)
    requires Inv(v) && b in v.live
  {
    Holds(v, b, x) || GivenBack(v, Freed(v, b), Page(x))
  }

  ghost predicate GivenBack(v: View, w: View, q: int) {
    InPool(v, q) && v.used[q - v.first] && !(w.first == v.first && |w.used| == |v.used| && w.used[q - v.first])
  }

  /** free (b) leaves every other block in use, where it was and as large, and overwrites no byte of it. */
  lemma {:induction false} WipedApart(v: View, b: int, c: int, x: int)
    requires Inv(v) && b in v.live && c in v.live && c != b && Holds(v, c, x)
    ensures !Wiped(v, b, x) && SameFor(v, Freed(v, b), c)
  {
    hide Page, Capacity, Freed, PagesApart, PagesKept, FreeOk, CountsOk, BlocksKept, InUseBut, InPool, LiveOk;
    FreedKeeps(v, b);
    FreedSame(v, b, c);
    SameUsed(v, b);
    var w := Freed(v, b);
    StillHolds(v, w, c, x);
    BlockApartFromOthers(w, c, x);
    if Holds(v, b, x) { BlocksDisjoint(v, b, c, x); }
  }

  lemma {:induction false} StillHolds(v: View, w: View, c: int, x: int)
    requires SameFor(v, w, c)
    ensures Holds(v, c, x) == Holds(w, c, x)
  {
  }

  lemma {:induction false} SameUsed(v: View, b: int)
    requires Inv(v) && b in v.live
    ensures |Freed(v, b).used| == |v.used|
  {
  }

  lemma {:induction false} WipedNotOthers(v: View, b: int, x: int)
    requires Inv(v) && b in v.live && Page(x) in v.others
    ensures !Wiped(v, b, x)
  {
    hide Page, Capacity, Freed, InUseBut, LiveOk;
    FreedKeeps(v, b);
    SameUsed(v, b);
    if Holds(v, b, x) { BlockApartFromOthers(v, b, x); }
  }

  /** The loop of malloc_init: the block sizes of the descriptors. */
  method Descriptors() returns (sizes: seq<int>)
    ensures |sizes| == DESC_CNT && forall k: nat | k < DESC_CNT :: sizes[k] == BlockSize(k)
  {
    var size := 16;
    sizes := [];
    while size < PGSIZE / 2
      invariant |sizes| <= DESC_CNT && size == (if |sizes| < DESC_CNT then BlockSize(|sizes|) else 2048)
      invariant forall k: nat | k < |sizes| :: sizes[k] == BlockSize(k)
      decreases 2048 - size
    {
      sizes := sizes + [size];
      size := size * 2;
    }
  }

  lemma {:induction false} PageRange(p: int, n: int, x: int)
    ensures p * PGSIZE <= x < p * PGSIZE + n * PGSIZE <==> p <= Page(x) < p + n
  {
  }

  /** The pages from `p` on are those given back, when they alone are no longer marked. */
  lemma {:induction false} GivenIs(v: View, w: View, p: int, n: nat, q: int)
    requires w.first == v.first <= p && p + n <= v.first + |v.used| && Bitmap.AllAre(v.used, p - v.first, n, true)
    requires w.used == Bitmap.Filled(v.used, p - v.first, n, false)
    ensures GivenBack(v, w, q) <==> p <= q < p + n
  {
    hide Bitmap.Filled;
    Bitmap.FilledAt(v.used, p - v.first, n, false);
  }

  /** The three ways of free (b): the block only; its arena too, when nothing else is left in it; or the block's
      pages. */
  lemma {:induction false} FreedPartly(v: View, b: int)
    requires Inv(v) && b in v.live && v.arenas[Page(b)].Small?
    requires v.arenas[Page(b)].freeCnt + 1 < PerArena(v.arenas[Page(b)].desc)
    ensures Freed(v, b) == Push(v, b)
  {
    hide PagesApart, PagesKept, FreeOk, CountsOk, BlocksKept, InUseBut, Page, PerArena;
    LiveAt(v, b);
    PushKeeps(v, b);
  }

  lemma {:induction false} FreedFull(v: View, b: int)
    requires Inv(v) && b in v.live && v.arenas[Page(b)].Small?
    requires v.arenas[Page(b)].freeCnt + 1 >= PerArena(v.arenas[Page(b)].desc)
    ensures var p, w := Page(b), Push(v, b);
      && Core(w) && Idle(w, p) && v.first <= p < v.first + |v.used| && v.used[p - v.first]
      && Freed(v, b) == DropArena(w, p)
      && Freed(v, b).used == Bitmap.Filled(v.used, p - v.first, 1, false)
  {
    hide PagesApart, PagesKept, FreeOk, CountsOk, BlocksKept, InUseBut, Page, PerArena, Blocks, Minus, Bitmap.Filled;
    hide Idle;
    LiveAt(v, b);
    PushKeeps(v, b);
    DropArenaKeeps(Push(v, b), Page(b));
    CoveredUsed(v, Page(b), Page(b));
  }

  lemma {:induction false} FreedPages(v: View, b: int)
    requires Inv(v) && b in v.live && v.arenas[Page(b)].Big?
    ensures var p := Page(b);
      && b == BigBlock(p) && v.first <= p && p + v.arenas[p].pageCnt <= v.first + |v.used|
      && Bitmap.AllAre(v.used, p - v.first, v.arenas[p].pageCnt, true)
      && Freed(v, b) == DropBig(v, p)
      && Freed(v, b).used == Bitmap.Filled(v.used, p - v.first, v.arenas[p].pageCnt, false)
  {
    hide PagesApart, PagesKept, FreeOk, CountsOk, BlocksKept, InUseBut, Page, Ofs, BigBlock, Bitmap.Filled;
    hide Bitmap.AllAre;
    LiveAt(v, b);
    OnPage(b);
    DropBigKeeps(v, Page(b));
    OnePageUsed(v, Page(b));
  }

  /** What free (b) overwrites in each case. */
  lemma {:induction false} WipedSmall(v: View, b: int, x: int)
    requires Inv(v) && b in v.live && v.arenas[Page(b)].Small?
    requires v.arenas[Page(b)].freeCnt + 1 < PerArena(v.arenas[Page(b)].desc)
    ensures Wiped(v, b, x) <==> b <= x < b + BlockSize(v.arenas[Page(b)].desc)
  {
    FreedPartly(v, b);
    hide PagesApart, PagesKept, FreeOk, CountsOk, BlocksKept, InUseBut, Page, PerArena, Freed;
  }

  lemma {:induction false} WipedArena(v: View, b: int, x: int)
    requires Inv(v) && b in v.live && v.arenas[Page(b)].Small?
    requires v.arenas[Page(b)].freeCnt + 1 >= PerArena(v.arenas[Page(b)].desc)
    ensures var p := Page(b);
      Wiped(v, b, x) <==> b <= x < b + BlockSize(v.arenas[p].desc) || p * PGSIZE <= x < p * PGSIZE + PGSIZE
  {
    hide PagesApart, PagesKept, FreeOk, CountsOk, BlocksKept, InUseBut, Page, PerArena, Freed, GivenBack, Bitmap.Filled;
    FreedKeeps(v, b);
    FreedFull(v, b);
    GivenIs(v, Freed(v, b), Page(b), 1, Page(x));
    PageRange(Page(b), 1, x);
  }

  lemma {:induction false} WipedBig(v: View, b: int, x: int)
    requires Inv(v) && b in v.live && v.arenas[Page(b)].Big?
    ensures var p := Page(b); Wiped(v, b, x) <==> p * PGSIZE <= x < p * PGSIZE + v.arenas[p].pageCnt * PGSIZE
  {
    hide PagesApart, PagesKept, FreeOk, CountsOk, BlocksKept, InUseBut, Page, Freed, GivenBack, Capacity;
    hide Bitmap.Filled, Bitmap.AllAre;
    FreedKeeps(v, b);
    FreedPages(v, b);
    GivenIs(v, Freed(v, b), Page(b), v.arenas[Page(b)].pageCnt, Page(x));
    PageRange(Page(b), v.arenas[Page(b)].pageCnt, x);
    if Holds(v, b, x) { HoldsCovered(v, b, x); }
  }

  /** `n` bytes at `from` are now at `to`. */
  ghost predicate Moved(was: int -> int, mem: int -> int, to: int, from: int, n: int) {
    forall x | to <= x < to + n :: mem(x) == was(x - to + from)
  }

  /** Every block in use but `b` is still in use, where it was, with the bytes it held. */
  ghost predicate RestSame(v: View, w: View, was: int -> int, mem: int -> int, b: int) {
    && Inv(v) && Inv(w)
    && forall c, x | c != b && Holds(v, c, x) :: Holds(w, c, x) && mem(x) == was(x)
  }

  lemma {:induction false} RestTaken(v: View, size: int, r: int, u: View, mem: int -> int)
    requires Inv(v) && Taken(v, size, r, u)
    ensures forall b :: RestSame(v, u, mem, mem, b)
  {
    TakenKeeps(v, size, r, u);
    hide Inv, Taken, Capacity;
    forall c, x | Inv(v) && Inv(u) && Holds(v, c, x) ensures Holds(u, c, x) {
      TakenSame(v, size, r, u, c);
      StillHolds(v, u, c, x);
    }
  }

  /** A byte of a block that was in use is not where a new block is written. */
  lemma {:induction false} NewApart(v: View, size: int, r: int, u: View, c: int, x: int)
    requires Inv(v) && Taken(v, size, r, u) && Holds(v, c, x)
    ensures Inv(u) && Holds(u, c, x) && !Holds(u, r, x)
  {
    TakenKeeps(v, size, r, u);
    hide Taken, Capacity;
    TakenSame(v, size, r, u, c);
    StillHolds(v, u, c, x);
    if Holds(u, r, x) { BlocksDisjoint(u, r, c, x); }
  }

  /** A byte of any other block survives the move from `b` to `r`. */
  lemma {:induction false} RestByte(v: View, size: int, r: int, u: View, b: int, c: int, x: int)
    requires Inv(v) && Taken(v, size, r, u) && b in v.live && c != b && Holds(v, c, x)
    ensures Inv(u) && b in u.live && Inv(Freed(u, b)) && Holds(Freed(u, b), c, x) && !Wiped(u, b, x) && !Holds(u, r, x)
  {
    TakenKeeps(v, size, r, u);
    NewApart(v, size, r, u, c, x);
    FreedKeeps(u, b);
    hide Taken, InUseBut, PagesApart, PagesKept, FreeOk, CountsOk, BlocksKept, Capacity, Freed, Wiped;
    WipedApart(u, b, c, x);
    StillHolds(u, Freed(u, b), c, x);
  }

  ghost predicate FreedBytes(u: View, b: int, was: int -> int, mem: int -> int)
    requires Inv(u) && b in u.live
  {
    forall x :: mem(x) == if Wiped(u, b, x) then POISON else was(x)
  }

  lemma {:induction false} FreedBytesSmall(v: View, b: int, was: int -> int, mem: int -> int)
    requires Inv(v) && b in v.live && v.arenas[Page(b)].Small?
    requires v.arenas[Page(b)].freeCnt + 1 < PerArena(v.arenas[Page(b)].desc)
    requires mem == Set(was, b, BlockSize(v.arenas[Page(b)].desc), POISON)
    ensures FreedBytes(v, b, was, mem)
  {
    hide Core, InUseBut, Wiped, Page, PerArena, BlockSize;
    forall x ensures mem(x) == if Wiped(v, b, x) then POISON else was(x) { WipedSmall(v, b, x); }
  }

  lemma {:induction false} FreedBytesArena(v: View, b: int, was: int -> int, mem: int -> int)
    requires Inv(v) && b in v.live && v.arenas[Page(b)].Small?
    requires v.arenas[Page(b)].freeCnt + 1 >= PerArena(v.arenas[Page(b)].desc)
    requires mem == Set(Set(was, b, BlockSize(v.arenas[Page(b)].desc), POISON), Page(b) * PGSIZE, PGSIZE, POISON)
    ensures FreedBytes(v, b, was, mem)
  {
    hide Core, InUseBut, Wiped, Page, PerArena, BlockSize;
    forall x ensures mem(x) == if Wiped(v, b, x) then POISON else was(x) { WipedArena(v, b, x); }
  }

  lemma {:induction false} FreedBytesBig(v: View, b: int, was: int -> int, mem: int -> int)
    requires Inv(v) && b in v.live && v.arenas[Page(b)].Big?
    requires mem == Set(was, Page(b) * PGSIZE, v.arenas[Page(b)].pageCnt * PGSIZE, POISON)
    ensures FreedBytes(v, b, was, mem)
  {
    hide Core, InUseBut, Wiped, Page;
    forall x ensures mem(x) == if Wiped(v, b, x) then POISON else was(x) { WipedBig(v, b, x); }
  }

  lemma {:induction false} MovedBytes(u: View, r: int, b: int, was: int -> int, mem: int -> int, n: int)
    requires Inv(u) && r in u.live && b in u.live && b != r && n <= Capacity(u, r)
    requires FreedBytes(u, b, Copy(was, r, b, n), mem)
    ensures Moved(was, mem, r, b, n)
  {
    hide Core, InUseBut, Capacity, FreedBytes, Copy;
    forall x | r <= x < r + n ensures mem(x) == was(x - r + b) { MovedByte(u, r, b, was, mem, n, x); }
  }

  lemma {:induction false} MovedByte(u: View, r: int, b: int, was: int -> int, mem: int -> int, n: int, x: int)
    requires Inv(u) && r in u.live && b in u.live && b != r && n <= Capacity(u, r)
    requires FreedBytes(u, b, Copy(was, r, b, n), mem)
    requires r <= x < r + n
    ensures mem(x) == was(x - r + b)
  {
    hide InUseBut, PagesApart, PagesKept, FreeOk, CountsOk, BlocksKept, Capacity, Freed, Wiped, FreedBytes, Copy;
    WipedApart(u, b, r, x);
    FreedByte(u, b, Copy(was, r, b, n), mem, x);
    CopiedByte(was, r, b, n, x);
  }

  lemma {:induction false} FreedByte(u: View, b: int, was: int -> int, mem: int -> int, x: int)
    requires Inv(u) && b in u.live && FreedBytes(u, b, was, mem)
    ensures mem(x) == if Wiped(u, b, x) then POISON else was(x)
  {
    hide Inv, Wiped;
  }

  lemma {:induction false} CopiedByte(was: int -> int, to: int, from: int, n: int, x: int)
    requires to <= x < to + n
    ensures Copy(was, to, from, n)(x) == was(x - to + from)
  {
  }

  lemma {:induction false} RestBytes(v: View, size: int, r: int, u: View, b: int, was: int -> int, mem: int -> int,
                                     n: int)
    requires Inv(v) && Taken(v, size, r, u) && Inv(u) && r in u.live && b in v.live && b in u.live
    requires n <= Capacity(u, r)
    requires FreedBytes(u, b, Copy(was, r, b, n), mem)
    ensures RestSame(v, Freed(u, b), was, mem, b)
  {
    FreedKeeps(u, b);
    hide Taken, InUseBut, PagesApart, PagesKept, FreeOk, CountsOk, BlocksKept, Capacity, Freed, Wiped;
    forall c, x | c != b && Holds(v, c, x) ensures Holds(Freed(u, b), c, x) && mem(x) == was(x) {
      RestByte(v, size, r, u, b, c, x);
    }
  }

  /** realloc: the new block begins with the old block's bytes, and no other block is touched. */
  ghost predicate Reallocated(v: View, was: int -> int, b: int, size: int, r: int, w: View, mem: int -> int) {
    && Inv(v) && Inv(w) && r !in v.live && w.live == v.live - {b} + {r} && w.others == v.others
    && (Capacity(w, r) >= size <==> size <= B32 - HEADER)
    && (size <= B32 - HEADER ==>
          && RestSame(v, w, was, mem, b)
          && (b in v.live ==> Moved(was, mem, r, b, if size < Capacity(v, b) then size else Capacity(v, b))))
  }

  /** A block is taken as malloc does, and then `b` given back as free does. */
  ghost predicate Exchanged(v: View, b: int, size: int, r: int, w: View) {
    exists u :: Taken(v, size, r, u) && Inv(u) && b in u.live && w == Freed(u, b)
  }

  lemma {:induction false} ReallocNew(v: View, size: int, r: int, u: View, mem: int -> int)
    requires Inv(v) && Taken(v, size, r, u)
    ensures Reallocated(v, mem, 0, size, r, u, mem)
  {
    TakenKeeps(v, size, r, u);
    NoPageZero(v);
    hide Core, InUseBut, Taken, Capacity, RestSame, Moved;
    TakenEnough(v, size, r, u);
    RestTaken(v, size, r, u, mem);
  }

  lemma {:induction false} ReallocMove(v: View, size: int, r: int, u: View, b: int, was: int -> int, mem: int -> int,
                                       n: int)
    requires Inv(v) && Taken(v, size, r, u) && Inv(u) && b in v.live && b in u.live
    requires n == (if size < Capacity(u, b) then size else Capacity(u, b)) && FreedBytes(u, b, Copy(was, r, b, n), mem)
    ensures Reallocated(v, was, b, size, r, Freed(u, b), mem)
  {
    hide InUseBut, PagesApart, PagesKept, FreeOk, CountsOk, LiveOk, BlocksKept;
    hide Taken, Freed, Capacity, RestSame, Moved, FreedBytes, Copy;
    TakenKeeps(v, size, r, u);
    FreedKeeps(u, b);
    TakenEnough(v, size, r, u);
    TakenSame(v, size, r, u, b);
    FreedSame(u, b, r);
    if size <= B32 - HEADER {
      MovedBytes(u, r, b, was, mem, n);
      RestBytes(v, size, r, u, b, was, mem, n);
    }
  }

  class Heap {
    const used: Bitmap.Map       // the pool's used_map
    const first: int             // pg_no (pool->base)
    var sizes: seq<int>          // descs[..].block_size
    var free: seq<seq<int>>      // descs[..].free_list
    var arenas: map<int, Arena>
    var mem: int -> int
    ghost var live: set<int>
    ghost var others: set<int>

    ghost function View(): View
      reads this, used
    {
      HeapModel.View(first, used.bits, free, arenas, live, others)
    }

    ghost predicate Valid()
      reads this, used, used.words
    {
      && used.Valid() && Inv(View()) && first > 0 && |free| == DESC_CNT
      && |sizes| == DESC_CNT && forall k: nat | k < DESC_CNT :: sizes[k] == BlockSize(k)
    }

    constructor (first: int, pageCnt: nat)
      requires first > 0
      ensures Valid() && fresh(used) && fresh(used.words) && this.first == first
      ensures live == {} && others == {} && arenas == map[] && used.bits == seq(pageCnt, _ => false)
    {
      this.first := first;
      used := new Bitmap.Map(pageCnt);
      var blockSizes := Descriptors();
      sizes := blockSizes;
      free := seq(DESC_CNT, _ => []);
      arenas := map[];
      mem := _ => 0;
      live, others := {}, {};
      new;
      hide Inv, BlockSize, Bitmap.Map.Valid;
      UntouchedOk(first, pageCnt);
    }

    /** palloc_get_multiple. */
    method GetPages(cnt: nat) returns (page: int)
      requires used.Valid() && first > 0
      modifies used`bits, used.words
      ensures used.Valid()
      ensures page == 0 ==> used.bits == old(used.bits) && (cnt == 0 || Bitmap.NoGroup(old(used.bits), 0, cnt, false))
      ensures page != 0 ==> cnt > 0 && FirstFree(old(View()), cnt, page)
      ensures page != 0 ==> used.bits == Bitmap.Filled(old(used.bits), page - first, cnt, true)
    {
      if cnt == 0 {
        return 0;
      }
      var idx := used.ScanAndFlip(0, cnt, false);
      page := if idx.Some? then first + idx.value else 0;
    }

    /** palloc_free_multiple. */
    method FreePages(page: int, cnt: nat)
      requires used.Valid() && first <= page && page + cnt <= first + |used.bits|
      requires Bitmap.AllAre(used.bits, page - first, cnt, true)
      modifies used`bits, used.words, this`mem
      ensures used.Valid() && used.bits == Bitmap.Filled(old(used.bits), page - first, cnt, false)
      ensures mem == Set(old(mem), page * PGSIZE, cnt * PGSIZE, POISON)
    {
      mem := Set(mem, page * PGSIZE, cnt * PGSIZE, POISON);
      used.SetMultiple(page - first, cnt, false);
    }

    /** The smallest descriptor for a request, or one past the last. */
    method FindDesc(size: int) returns (k: nat)
      requires |sizes| == DESC_CNT && forall j: nat | j < DESC_CNT :: sizes[j] == BlockSize(j)
      ensures size <= 1024 ==> Fits(size, k)
      ensures size > 1024 ==> k == DESC_CNT
    {
      k := 0;
      while k < DESC_CNT && sizes[k] < size
        invariant k <= DESC_CNT && forall j: nat | j < k :: BlockSize(j) < size
      {
        k := k + 1;
      }
      assert BlockSize(DESC_CNT - 1) == 1024;
    }

    /** The blocks of a new arena, pushed onto an empty free list one by one. */
    method CutPage(p: int, k: nat)
      requires |free| == DESC_CNT && k < DESC_CNT && free[k] == []
      modifies this`free
      ensures free == old(free)[k := Blocks(p, k)]
    {
      hide PerArena;
      for i := 0 to PerArena(k)
        invariant |free| == DESC_CNT && free[k] == Blocks(p, k)[..i]
        invariant forall j | 0 <= j < DESC_CNT && j != k :: free[j] == old(free)[j]
      {
        free := free[k := free[k] + [BlockAt(p, k, i)]];
        assert Blocks(p, k)[..i + 1] == Blocks(p, k)[..i] + [BlockAt(p, k, i)];
      }
      assert Blocks(p, k)[..PerArena(k)] == Blocks(p, k);
    }

    /** A page becomes an arena of descriptor `k`, its blocks free. */
    method NewArena(k: nat) returns (p: int)
      requires Valid() && k < DESC_CNT && free[k] == []
      modifies this`free, this`arenas, used`bits, used.words
      ensures used.Valid()
      ensures p == 0 ==> View() == old(View()) && Bitmap.NoGroup(old(used.bits), 0, 1, false)
      ensures p != 0 ==> FirstFree(old(View()), 1, p) && View() == AddArena(old(View()), p, k)
    {
      hide PerArena, Inv, Blocks, Bitmap.Filled, Bitmap.Map.Valid;
      p := GetPages(1);
      if p != 0 {
        arenas := arenas[p := Small(k, PerArena(k))];
        CutPage(p, k);
      }
    }

    /** The first block of a free list is handed out. */
    method PopBlock(k: nat) returns (b: int)
      requires Poppable(View(), k)
      modifies this`free, this`arenas, this`live
      ensures View() == Pop(old(View()), k) && b == old(free)[k][0]
    {
      b := free[k][0];
      var p := Page(b);
      free := free[k := free[k][1..]];
      arenas := arenas[p := Small(k, arenas[p].freeCnt - 1)];
      live := live + {b};
    }

    method MallocSmall(k: nat) returns (b: int)
      requires Valid() && k < DESC_CNT
      modifies this`free, this`arenas, this`live, used`bits, used.words
      ensures used.Valid()
      ensures b == 0 ==> View() == old(View()) && free[k] == [] && Bitmap.NoGroup(old(used.bits), 0, 1, false)
      ensures b != 0 ==> TakenSmall(old(View()), k, b, View())
    {
      ghost var v := View();
      if free[k] == [] {
        var p := NewArena(k);
        if p == 0 {
          return 0;
        }
        FreshPoppable(v, p, k);
      } else {
        HeadPoppable(v, k);
      }
      hide Inv, PerArena, Blocks, Page, Bitmap.Filled, Pop, AddArena;
      b := PopBlock(k);
    }

    /** The part of malloc for requests that no descriptor can meet. */
    method MallocBig(size: int) returns (b: int)
      requires Valid() && 1024 < size < B32
      modifies this`arenas, this`live, used`bits, used.words
      ensures used.Valid()
      ensures b == 0 ==> OutOfMemory(old(View()), size) && View() == old(View())
      ensures b != 0 ==> Taken(old(View()), size, b, View())
    {
      hide PageCnt, Inv, Page, BigBlock, Bitmap.Map.Valid, Bitmap.Filled, FirstFree, TakenSmall;
      var n := PageCnt(size);
      var p := GetPages(n);
      if p == 0 {
        return 0;
      }
      arenas := arenas[p := Big(n)];
      b := BigBlock(p);
      live := live + {b};
      BigBlockIs(p);
      FirstFreeIn(old(View()), n, p);
    }

    method Malloc(size: int) returns (b: int)
      requires Valid() && 0 <= size < B32
      modifies this`free, this`arenas, this`live, used`bits, used.words
      ensures Valid()
      ensures b == 0 ==> OutOfMemory(old(View()), size) && View() == old(View())
      ensures b != 0 ==> Taken(old(View()), size, b, View())
    {
      hide Inv, Taken, TakenSmall, Fits, BlockSize, Bitmap.Map.Valid, Bitmap.NoGroup, OutOfMemory;
      ghost var v := View();
      if size == 0 {
        NothingAsked(v);
        return 0;
      }
      var k := FindDesc(size);
      if k == DESC_CNT {
        NotFitting(size, k);
        b := MallocBig(size);
        if b == 0 {
          return 0;
        }
      } else {
        Fitting(v, size, k);
        b := MallocSmall(k);
        if b == 0 {
          return 0;
        }
        TakenIs(v, size, k, b, View());
      }
      TakenKeeps(v, size, b, View());
      NoPageZero(View());
    }

    /** block_size. */
    method SizeOf(b: int) returns (n: int)
      requires Valid() && b in live
      ensures n == Capacity(View(), b)
    {
      var a := arenas[Page(b)];
      n := if a.Small? then sizes[a.desc] else PGSIZE * a.pageCnt - Ofs(b);
    }

    /** The blocks of an arena that is wholly free come off the free list one by one. */
    method UncutPage(p: int, k: nat)
      requires |free| == DESC_CNT && k < DESC_CNT && forall b | b in Blocks(p, k) :: b in free[k]
      modifies this`free
      ensures free == old(free)[k := Minus(old(free)[k], Elems(Blocks(p, k)))]
    {
      hide PerArena, Minus;
      BlocksAre(p, k);
      ghost var s := old(free)[k];
      MinusNone(s);
      assert Elems(Blocks(p, k)[..0]) == {};
      for i := 0 to PerArena(k)
        invariant |free| == DESC_CNT && free[k] == Minus(s, Elems(Blocks(p, k)[..i]))
        invariant forall j | 0 <= j < DESC_CNT && j != k :: free[j] == old(free)[j]
      {
        var b := BlockAt(p, k, i);
        ghost var gone := Elems(Blocks(p, k)[..i]);
        MinusHas(s, gone);
        assert b == Blocks(p, k)[i] && b in s && b !in gone;
        assert b in free[k];      // list_remove takes an element of a list
        MinusMore(s, gone, b);
        free := free[k := Minus(free[k], {b})];
        assert Elems(Blocks(p, k)[..i + 1]) == gone + {b};
      }
      assert Blocks(p, k)[..PerArena(k)] == Blocks(p, k);
    }

    method PushBlock(b: int)
      requires Valid() && b in live && Page(b) in arenas && arenas[Page(b)].Small? && arenas[Page(b)].desc < DESC_CNT
      modifies this`free, this`arenas, this`live, this`mem
      ensures View() == Push(old(View()), b)
      ensures mem == Set(old(mem), b, BlockSize(old(arenas)[Page(b)].desc), POISON)
    {
      hide Inv, Page, BlockSize, Bitmap.Map.Valid;
      var p := Page(b);
      var k := arenas[p].desc;
      mem := Set(mem, b, sizes[k], POISON);
      free := free[k := [b] + free[k]];
      arenas := arenas[p := Small(k, arenas[p].freeCnt + 1)];
      live := live - {b};
    }

    method DropPage(p: int)
      requires used.Valid() && Core(View()) && Idle(View(), p) && first <= p < first + |used.bits|
      modifies this`free, this`arenas, this`mem, used`bits, used.words
      ensures used.Valid() && View() == DropArena(old(View()), p)
      ensures mem == Set(old(mem), p * PGSIZE, PGSIZE, POISON)
    {
      hide Core, PerArena, Blocks, Minus, Bitmap.Filled, Bitmap.Map.Valid, Set;
      OnePageUsed(View(), p);
      UncutPage(p, arenas[p].desc);
      FreePages(p, 1);
      arenas := arenas - {p};
    }

    /** The part of free for a block of a descriptor. */
    method FreeSmall(b: int)
      requires Valid() && b in live && Page(b) in arenas && arenas[Page(b)].Small?
      modifies this`free, this`arenas, this`live, this`mem, used`bits, used.words
      ensures used.Valid() && View() == Freed(old(View()), b)
      ensures FreedBytes(old(View()), b, old(mem), mem)
    {
      hide Inv, PerArena, BlockSize, Page, Freed, FreedBytes, DropArena, Idle, Core, Set, Bitmap.Map.Valid;
      hide Bitmap.Filled;
      ghost var v := View();
      LiveAt(v, b);
      PushBlock(b);
      var p := Page(b);
      if arenas[p].freeCnt >= PerArena(arenas[p].desc) {
        FreedFull(v, b);
        DropPage(p);
        FreedBytesArena(v, b, old(mem), mem);
      } else {
        FreedPartly(v, b);
        FreedBytesSmall(v, b, old(mem), mem);
      }
    }

    /** The part of free for a block that has pages of its own. */
    method FreeBig(b: int)
      requires Valid() && b in live && Page(b) in arenas && arenas[Page(b)].Big?
      modifies this`arenas, this`live, this`mem, used`bits, used.words
      ensures used.Valid() && View() == Freed(old(View()), b)
      ensures FreedBytes(old(View()), b, old(mem), mem)
    {
      hide Inv, Page, BigBlock, Freed, FreedBytes, Set, Bitmap.Map.Valid, Bitmap.Filled, Bitmap.AllAre;
      ghost var v := View();
      var p := Page(b);
      FreedPages(v, b);
      FreePages(p, arenas[p].pageCnt);
      arenas := arenas - {p};
      live := live - {b};
      FreedBytesBig(v, b, old(mem), mem);
    }

    /** free. */
    method Free(b: int)
      requires Valid() && (b == 0 || b in live)
      modifies this`free, this`arenas, this`live, this`mem, used`bits, used.words
      ensures Valid()
      ensures b == 0 ==> View() == old(View()) && mem == old(mem)
      ensures b != 0 ==> View() == Freed(old(View()), b)
      ensures b != 0 ==> FreedBytes(old(View()), b, old(mem), mem)
    {
      hide Page, Freed, FreedBytes, Inv, Bitmap.Map.Valid;
      if b == 0 {
        return;
      }
      ghost var v := View();
      var p := Page(b);
      LiveAt(v, b);
      FreedKeeps(v, b);
      NoPageZero(Freed(v, b));
      if arenas[p].Small? {
        FreeSmall(b);
      } else {
        FreeBig(b);
      }
    }

    method Realloc(block: int, size: int) returns (r: int)
      requires Valid() && 0 <= size < B32 && (block == 0 || block in live)
      modifies this`free, this`arenas, this`live, this`mem, used`bits, used.words
      ensures Valid()
      ensures size == 0 ==> r == 0 && View() == if block == 0 then old(View()) else Freed(old(View()), block)
      ensures size == 0 ==> if block == 0 then mem == old(mem) else FreedBytes(old(View()), block, old(mem), mem)
      ensures size > 0 && r == 0 ==> OutOfMemory(old(View()), size) && View() == old(View()) && mem == old(mem)
      ensures r != 0 ==> Reallocated(old(View()), old(mem), block, size, r, View(), mem)
      ensures r != 0 && block == 0 ==> Taken(old(View()), size, r, View()) && mem == old(mem)
      ensures r != 0 && block != 0 ==> Exchanged(old(View()), block, size, r, View())
    {
      hide Core, InUseBut, Freed, Taken, FreedBytes, Capacity, OutOfMemory, Reallocated, Copy, Bitmap.Map.Valid;
      if size == 0 {
        Free(block);
        return 0;
      }
      ghost var v := View();
      r := Malloc(size);
      ghost var u := View();
      if r != 0 && block == 0 {
        ReallocNew(v, size, r, u, mem);
      } else if r != 0 {
        TakenKeeps(v, size, r, u);
        var oldSize := SizeOf(block);
        var n := if size < oldSize then size else oldSize;
        mem := Copy(mem, r, block, n);
        Free(block);
        ReallocMove(v, size, r, u, block, old(mem), mem, n);
      }
    }

    /** calloc: the product is taken in 32 bits, and the check on it does not catch every overflow. */
    method Calloc(a: int, b: int) returns (p: int)
      requires Valid() && 0 <= a < B32 && 0 <= b < B32
      modifies this`free, this`arenas, this`live, this`mem, used`bits, used.words
      ensures Valid()
      ensures p == 0 ==> View() == old(View()) && mem == old(mem)
      ensures p == 0 ==> (a * b) % B32 < a || (a * b) % B32 < b || OutOfMemory(old(View()), (a * b) % B32)
      ensures p != 0 ==> Taken(old(View()), (a * b) % B32, p, View()) && mem == Set(old(mem), p, (a * b) % B32, 0)
      ensures p != 0 ==> forall x :: mem(x) == if p <= x < p + (a * b) % B32 then 0 else old(mem)(x)
      ensures p != 0 ==> p in live && (Capacity(View(), p) >= a * b <==> a * b <= B32 - HEADER)
      ensures p != 0 && a * b <= B32 - HEADER ==> RestSame(old(View()), View(), old(mem), mem, p)
    {
      hide Core, InUseBut, Taken, Capacity, OutOfMemory, RestSame, Set, Bitmap.Map.Valid;
      var size := (a * b) % B32;
      if size < a || size < b {
        return 0;
      }
      ghost var v := View();
      p := Malloc(size);
      if p != 0 {
        ghost var w := View();
        mem := Set(mem, p, size, 0);
        SetIs(old(mem), p, size, 0);
        CallocEnough(v, a * b, p, w);
        if a * b <= B32 - HEADER { CallocApart(v, size, p, w, old(mem)); }
      }
    }

    /** Another part of the kernel takes pages from the pool. */
    method OtherTakes(cnt: nat) returns (p: int)
      requires Valid()
      modifies this`others, used`bits, used.words
      ensures Valid()
      ensures p == 0 ==> View() == old(View()) && (cnt == 0 || Bitmap.NoGroup(old(used.bits), 0, cnt, false))
      ensures p != 0 ==> FirstFree(old(View()), cnt, p) && View() == OthersTake(old(View()), p, cnt)
    {
      ghost var v := View();
      hide Inv, Bitmap.Map.Valid, Bitmap.AllAre;
      p := GetPages(cnt);
      if p != 0 {
        OthersTakeKeeps(v, p, cnt);
        others := others + PageSet(p, cnt);
      }
    }

    /** Another part of the kernel gives back pages it holds. */
    method OtherReturns(p: int, cnt: nat)
      requires Valid() && first <= p && p + cnt <= first + |used.bits| && PageSet(p, cnt) <= others
      modifies this`others, this`mem, used`bits, used.words
      ensures Valid() && View() == OthersReturn(old(View()), p, cnt)
      ensures mem == Set(old(mem), p * PGSIZE, cnt * PGSIZE, POISON)
    {
      ghost var v := View();
      hide Inv, Bitmap.Map.Valid, Bitmap.AllAre;
      OthersReturnKeeps(v, p, cnt);
      FreePages(p, cnt);
      others := others - PageSet(p, cnt);
    }
  }

  lemma {:induction false} CallocEnough(v: View, product: int, p: int, w: View)
    requires 0 <= product && Inv(v) && Taken(v, product % B32, p, w)
    ensures Inv(w) && p in w.live && (Capacity(w, p) >= product <==> product <= B32 - HEADER)
  {
    hide Core, InUseBut, Taken, Capacity;
    TakenKeeps(v, product % B32, p, w);
    TakenEnough(v, product % B32, p, w);
    TakenNotMore(v, product % B32, p, w);
  }

  /** The check on the product lets 65537 * 65537 through as a request for 131073 bytes, and a pool of 33 pages meets it
      with a block of 135156. */
  lemma {:induction false} CallocWraps()
    ensures var size, v, b := (65537 * 65537) % B32, Untouched(1, 33), BigBlock(1);
      var w := TakeBig(v, 1, 33);
      && size == 131073 && !(size < 65537)
      && Inv(v) && Taken(v, size, b, w) && Capacity(w, b) == 135156 < 65537 * 65537
  {
    UntouchedGives(33);
    hide FirstFree, TakeBig, Capacity, Inv;
    assert PageCnt(131073) == 33;
  }

  lemma {:induction false} CallocApart(v: View, size: int, p: int, w: View, was: int -> int)
    requires Inv(v) && Taken(v, size, p, w) && size <= B32 - HEADER
    ensures RestSame(v, w, was, Set(was, p, size, 0), p)
  {
    TakenKeeps(v, size, p, w);
    TakenEnough(v, size, p, w);
    hide Taken, InUseBut, PagesApart, PagesKept, FreeOk, CountsOk, BlocksKept, Capacity;
    forall c, x | c != p && Holds(v, c, x) ensures Holds(w, c, x) && Set(was, p, size, 0)(x) == was(x) {
      NewApart(v, size, p, w, c, x);
    }
  }

  /** A request cannot be met exactly when no block meets it. */
  lemma {:induction false} MetOrNot(v: View, size: int)
    requires Inv(v) && 0 < size < B32
    ensures OutOfMemory(v, size) <==> forall b, w :: !Taken(v, size, b, w)
  {
    if OutOfMemory(v, size) {
      forall b, w ensures !Taken(v, size, b, w) { NotBoth(v, size, b, w); }
    } else if size > 1024 {
      BigMet(v, size);
    } else {
      SmallMet(v, size);
    }
    hide Inv, OutOfMemory, Taken;
  }

  lemma {:induction false} NotBoth(v: View, size: int, b: int, w: View)
    requires 0 < size < B32 && OutOfMemory(v, size)
    ensures !Taken(v, size, b, w)
  {
    hide PageCnt, Pop, AddArena, TakeBig, Page, BigBlock;
    if size <= 1024 {
      forall j: nat, k: nat | Fits(size, j) && Fits(size, k) ensures j == k { OneFits(size, j, k); }
    }
  }

  lemma {:induction false} OneFits(size: int, j: nat, k: nat)
    requires Fits(size, j) && Fits(size, k)
    ensures j == k
  {
  }

  lemma {:induction false} FirstOf(bits: seq<bool>, cnt: nat, i: nat) returns (k: nat)
    requires i + cnt <= |bits| && Bitmap.AllAre(bits, i, cnt, false)
    ensures Bitmap.FirstGroup(bits, 0, cnt, false, k)
  {
    if j: nat :| j < i && Bitmap.AllAre(bits, j, cnt, false) {
      k := FirstOf(bits, cnt, j);
    } else {
      k := i;
    }
  }

  lemma {:induction false} BigMet(v: View, size: int)
    requires v.first > 0 && |v.free| == DESC_CNT && 1024 < size < B32 && !OutOfMemory(v, size)
    ensures exists b, w :: Taken(v, size, b, w)
  {
    hide PageCnt, TakeBig;
    var n := PageCnt(size);
    var i :| 0 <= i && i + n <= |v.used| && Bitmap.AllAre(v.used, i, n, false);
    var k := FirstOf(v.used, n, i);
    var p := v.first + k;
    BigBlockIs(p);
    assert Taken(v, size, BigBlock(p), TakeBig(v, p, n));
  }

  lemma {:induction false} SmallMet(v: View, size: int)
    requires Inv(v) && 0 < size <= 1024 && !OutOfMemory(v, size)
    ensures exists b, w :: Taken(v, size, b, w)
  {
    NoPageZero(v);
    var k := SomeFits(size);
    if v.free[k] != [] {
      HeadPoppable(v, k);
      assert TakenSmall(v, k, v.free[k][0], Pop(v, k));
      TakenIs(v, size, k, v.free[k][0], Pop(v, k));
    } else {
      var i :| 0 <= i && i + 1 <= |v.used| && Bitmap.AllAre(v.used, i, 1, false);
      var first := FirstOf(v.used, 1, i);
      var p := v.first + first;
      FreshPoppable(v, p, k);
      assert TakenSmall(v, k, BlockAt(p, k, 0), Pop(AddArena(v, p, k), k));
      TakenIs(v, size, k, BlockAt(p, k, 0), Pop(AddArena(v, p, k), k));
    }
  }

  lemma {:induction false} SomeFits(size: int) returns (k: nat)
    requires 0 < size <= 1024
    ensures Fits(size, k) && k < DESC_CNT
  {
    k := 0;
    while BlockSize(k) < size
      invariant k < DESC_CNT && forall j: nat | j < k :: BlockSize(j) < size
      decreases DESC_CNT - k
    {
      assert BlockSize(6) == 1024;
      k := k + 1;
    }
  }

  lemma {:induction false} NothingAsked(v: View)
    ensures OutOfMemory(v, 0)
  {
    hide Fits, Bitmap.NoGroup;
  }

  lemma {:induction false} NotFitting(size: int, k: nat)
    requires (size <= 1024 ==> Fits(size, k)) && k == DESC_CNT
    ensures size > 1024
  {
  }

  lemma {:induction false} Fitting(v: View, size: int, k: nat)
    requires (size <= 1024 ==> Fits(size, k)) && (size > 1024 ==> k == DESC_CNT) && k != DESC_CNT
    ensures size <= 1024 && Fits(size, k) && k < DESC_CNT
    ensures |v.free| == DESC_CNT && v.free[k] == [] && Bitmap.NoGroup(v.used, 0, 1, false) ==> OutOfMemory(v, size)
  {
    hide Bitmap.NoGroup;
  }

  lemma {:induction false} TakenIs(v: View, size: int, k: nat, b: int, w: View)
    requires 0 < size <= 1024 && Fits(size, k) && TakenSmall(v, k, b, w)
    ensures Taken(v, size, b, w)
  {
    assert |v.free| == DESC_CNT;
    hide TakenSmall, Fits;
  }

  lemma {:induction false} FirstFreeIn(v: View, n: nat, p: int)
    requires FirstFree(v, n, p)
    ensures v.first <= p && p + n <= v.first + |v.used|
  {
  }

  lemma {:induction false} HeadPoppable(v: View, k: nat)
    requires Inv(v) && k < DESC_CNT && v.free[k] != []
    ensures Poppable(v, k) && v.free[k][0] != 0
  {
    hide IsBlock, PerArena;
    var b := v.free[k][0];
    NoPageZero(v);
    assert b in v.free[k] && SmallIn(v, b, k);
    assert b in FreeIn(v.free[k], Page(b));
  }

  lemma {:induction false} FreshPoppable(v: View, p: int, k: nat)
    requires Inv(v) && k < DESC_CNT && v.free[k] == [] && FirstFree(v, 1, p)
    ensures Poppable(AddArena(v, p, k), k) && AddArena(v, p, k).free[k][0] == BlockAt(p, k, 0)
    ensures Page(BlockAt(p, k, 0)) == p && BlockAt(p, k, 0) != 0
  {
    hide IsBlock, PerArena;
    BlockAtIs(p, k, 0);
  }

  lemma {:induction false} MinusNone(s: seq<int>)
    ensures Minus(s, {}) == s
  {
    if s != [] { MinusNone(s[1..]); }
  }

  lemma {:induction false} OnePageUsed(v: View, p: int)
    requires Core(v) && p in v.arenas
    ensures v.first <= p && p + Span(v.arenas[p]) <= v.first + |v.used|
    ensures Bitmap.AllAre(v.used, p - v.first, Span(v.arenas[p]), true)
  {
    forall i | p - v.first <= i < p - v.first + Span(v.arenas[p])
      ensures v.used[i]
    {
      assert Covers(v, p, i + v.first);
    }
  }
}
