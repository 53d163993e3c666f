/**
 Loading one segment of an executable (userprog/process.c), as the Program Header of the ELF specification describes
 it. 32-bit arithmetic is written out; the outcome of each page allocation, read and mapping is an input.
 */
module ElfLoad {
  import opened Basics

  const PHYS_BASE: int := 0xc000_0000

  datatype Phdr = Phdr(offset: int, vaddr: int, filesz: int, memsz: int, writable: bool)

  predicate Fields(p: Phdr) {
    IsWord(p.offset) && IsWord(p.vaddr) && IsWord(p.filesz) && IsWord(p.memsz)
  }

  function Add(a: int, b: int): int { (a + b) % B32 }

  function Sub(a: int, b: int): int { (a - b) % B32 }

  function PageOf(a: int): int { a - a % PGSIZE }    // a & ~PGMASK

  /** ROUND_UP (x, PGSIZE) in 32 bits. */
  function RoundUp(x: int): int { (Add(x, PGSIZE - 1) / PGSIZE * PGSIZE) % B32 }

  /** validate_segment, for a file of `length` bytes. */
  predicate Validate(p: Phdr, length: int) {
    && p.offset % PGSIZE == p.vaddr % PGSIZE
    && p.offset <= length
    && p.memsz >= p.filesz
    && p.memsz != 0
    && p.vaddr < PHYS_BASE
    && Add(p.vaddr, p.memsz) < PHYS_BASE
    && Add(p.vaddr, p.memsz) >= p.vaddr
    && p.vaddr >= PGSIZE
  }

  /** In unbounded arithmetic: a header is accepted just if file and memory agree on the place in a page, the file part
      starts in the file and fits the memory part, and that is not empty and ends below PHYS_BASE, above page 0. */
  lemma {:induction false} Accepted(p: Phdr, length: int)
    requires Fields(p)
    ensures Validate(p, length) <==>
      && (p.vaddr - p.offset) % PGSIZE == 0 && p.offset <= length
      && p.filesz <= p.memsz && 0 < p.memsz
      && PGSIZE <= p.vaddr && p.vaddr + p.memsz < PHYS_BASE
  {
    AddIs(p.vaddr, p.memsz);
    SameOffset(p.vaddr, p.offset);
  }

  lemma {:induction false} SameOffset(a: int, b: int)
    ensures a % PGSIZE == b % PGSIZE <==> (a - b) % PGSIZE == 0
  {
    assert a - b == PGSIZE * (a / PGSIZE - b / PGSIZE) + (a % PGSIZE - b % PGSIZE);
  }

  datatype Segment = Segment(filePage: int, memPage: int, readBytes: int, zeroBytes: int)

  /** The arithmetic of load for a PT_LOAD header. */
  function SegmentOf(p: Phdr): Segment {
    var pageOffset := p.vaddr % PGSIZE;
    if p.filesz > 0 then
      var readBytes := Add(pageOffset, p.filesz);
      Segment(PageOf(p.offset), PageOf(p.vaddr), readBytes, Sub(RoundUp(Add(pageOffset, p.memsz)), readBytes))
    else
      Segment(PageOf(p.offset), PageOf(p.vaddr), 0, RoundUp(Add(pageOffset, p.memsz)))
  }

  /** What load_segment asserts, and that the pages lie in user memory above page 0. */
  ghost predicate SegmentOk(s: Segment) {
    && 0 <= s.readBytes && 0 <= s.zeroBytes && (s.readBytes + s.zeroBytes) % PGSIZE == 0 && s.memPage % PGSIZE == 0
    && 0 <= s.filePage && s.filePage % PGSIZE == 0
    && PGSIZE <= s.memPage && s.memPage + s.readBytes + s.zeroBytes <= PHYS_BASE
  }

  /** For an accepted header nothing wraps: the pages hold the segment, with the file's bytes and the zeros where they
      belong. */
  lemma {:induction false} NoWrap(p: Phdr, length: int)
    requires Fields(p) && Validate(p, length)
    ensures var s := SegmentOf(p);
      && SegmentOk(s) && p.vaddr + p.memsz < PHYS_BASE
      && s.memPage <= p.vaddr && p.vaddr + p.memsz <= s.memPage + s.readBytes + s.zeroBytes < p.vaddr + p.memsz + PGSIZE
      && p.vaddr - s.memPage == p.offset - s.filePage
      && (p.filesz > 0 ==> s.memPage + s.readBytes == p.vaddr + p.filesz)
      && (p.filesz == 0 ==> s.readBytes == 0)
  {
    hide SegmentOf, RoundUp, Validate, PageOf;
    SegmentIs(p, length);
    SamePageOffset(p, length);
    PageIs(p.vaddr);
    PageIs(p.offset);
    PagesBelow(p.vaddr, p.memsz, RoundUp(p.vaddr % PGSIZE + p.memsz));
  }

  lemma {:induction false} PageIs(a: int)
    requires 0 <= a
    ensures PageOf(a) % PGSIZE == 0 && 0 <= PageOf(a) && a == PageOf(a) + a % PGSIZE
    ensures (a >= PGSIZE ==> PageOf(a) >= PGSIZE)
  {
  }

  lemma {:induction false} SamePageOffset(p: Phdr, length: int)
    requires Validate(p, length)
    ensures p.offset % PGSIZE == p.vaddr % PGSIZE && p.vaddr >= PGSIZE && p.memsz >= p.filesz
  {
  }

  lemma {:induction false} SegmentIs(p: Phdr, length: int)
    requires Fields(p) && Validate(p, length)
    ensures p.vaddr + p.memsz < PHYS_BASE && PGSIZE <= p.vaddr && p.filesz <= p.memsz
    ensures var o := p.vaddr % PGSIZE;
      var total := RoundUp(o + p.memsz);
      var r := if p.filesz > 0 then o + p.filesz else 0;
      && o + p.memsz <= total < o + p.memsz + PGSIZE && total % PGSIZE == 0
      && SegmentOf(p) == Segment(PageOf(p.offset), PageOf(p.vaddr), r, total - r)
  {
    var o := p.vaddr % PGSIZE;
    AddIs(p.vaddr, p.memsz);
    AddIs(o, p.memsz);
    AddIs(o, p.filesz);
    RoundUpIs(o + p.memsz);
    hide Add, Sub, RoundUp, PageOf;
    SubIs(RoundUp(o + p.memsz), o + p.filesz);
  }

  lemma {:induction false} SubIs(a: int, b: int)
    ensures 0 <= a - b < B32 ==> Sub(a, b) == a - b
  {
  }

  lemma {:induction false} AddIs(a: int, b: int)
    requires IsWord(a) && IsWord(b)
    ensures Add(a, b) >= a ==> Add(a, b) == a + b
    ensures a + b < B32 ==> Add(a, b) == a + b
  {
  }

  lemma {:induction false} RoundUpIs(x: int)
    requires 0 <= x <= PHYS_BASE
    ensures x <= RoundUp(x) < x + PGSIZE && RoundUp(x) % PGSIZE == 0
  {
    assert Add(x, PGSIZE - 1) == x + PGSIZE - 1;
  }

  lemma {:induction false} PagesBelow(vaddr: int, memsz: int, total: int)
    requires 0 <= vaddr && vaddr + memsz < PHYS_BASE && total % PGSIZE == 0 && total < vaddr % PGSIZE + memsz + PGSIZE
    ensures PageOf(vaddr) + total <= PHYS_BASE
  {
    var end := PageOf(vaddr) + total;
    assert end % PGSIZE == 0 && end < PHYS_BASE + PGSIZE && PHYS_BASE % PGSIZE == 0;
  }

  // ---------------------------------------------------------------- load_segment

  datatype Frame = Frame(bytes: seq<int>, writable: bool)

  /** What happens at one page: is there a free frame, can the file be read, can the page be mapped. */
  datatype Outcome = Outcome(frame: bool, read: bool, table: bool)

  function Total(s: Segment): int { s.readBytes + s.zeroBytes }

  /** Byte `x` of the segment's memory. */
  function Content(file: seq<int>, s: Segment, x: int): int {
    if x < s.readBytes && 0 <= s.filePage + x < |file| then file[s.filePage + x] else 0
  }

  function PageBytes(file: seq<int>, s: Segment, k: int): (b: seq<int>)
    ensures |b| == PGSIZE && forall i | 0 <= i < PGSIZE :: b[i] == Content(file, s, PGSIZE * k + i)
  {
    seq(PGSIZE, i => Content(file, s, PGSIZE * k + i))
  }

  function PageAt(s: Segment, k: int): int { s.memPage + PGSIZE * k }

  /** The page table after the first `n` pages of the segment are in. */
  function Mapped(was: map<int, Frame>, file: seq<int>, s: Segment, writable: bool, n: nat): map<int, Frame> {
    if n == 0 then was
    else Mapped(was, file, s, writable, n - 1)[PageAt(s, n - 1) := Frame(PageBytes(file, s, n - 1), writable)]
  }

  lemma {:induction false} MappedHas(was: map<int, Frame>, file: seq<int>, s: Segment, writable: bool, n: nat, k: nat)
    requires k < n
    ensures PageAt(s, k) in Mapped(was, file, s, writable, n)
    ensures Mapped(was, file, s, writable, n)[PageAt(s, k)] == Frame(PageBytes(file, s, k), writable)
    decreases n
  {
    hide PageBytes;
    if k < n - 1 { MappedHas(was, file, s, writable, n - 1, k); }
  }

  /** Only the segment's own pages are mapped. */
  lemma {:induction false} MappedOnly(was: map<int, Frame>, file: seq<int>, s: Segment, writable: bool, n: nat, a: int)
    requires forall k: nat | k < n :: PageAt(s, k) != a
    ensures a in Mapped(was, file, s, writable, n) <==> a in was
    ensures a in was ==> Mapped(was, file, s, writable, n)[a] == was[a]
    decreases n
  {
    hide PageBytes, PageAt;
    if n > 0 { MappedOnly(was, file, s, writable, n - 1, a); }
  }

  /** Page `k` as load_segment puts it together: what is left to read, up to a page, then zeros. */
  lemma {:induction false} PageFilled(file: seq<int>, s: Segment, k: nat, pos: int, n: int)
    requires SegmentOk(s) && 0 <= n <= PGSIZE && PGSIZE * k < Total(s)
    requires var left := s.readBytes - PGSIZE * k;
      n == if left < 0 then 0 else if left < PGSIZE then left else PGSIZE
    requires n > 0 ==> pos == s.filePage + PGSIZE * k && pos + n <= |file|
    ensures (if n > 0 then file[pos..pos + n] else []) + seq(PGSIZE - n, _ => 0) == PageBytes(file, s, k)
  {
    var a, b := (if n > 0 then file[pos..pos + n] else []) + seq(PGSIZE - n, _ => 0), PageBytes(file, s, k);
    forall i | 0 <= i < PGSIZE ensures a[i] == b[i] {}
  }

  /** Page `k` can be loaded: there is a frame, its part of the file is there and is read, and the place is free to
      map. */
  predicate PageLoads(was: map<int, Frame>, file: seq<int>, s: Segment, outcome: nat -> Outcome, k: nat) {
    && outcome(k).frame && outcome(k).table && PageAt(s, k) !in was
    && (PGSIZE * k < s.readBytes ==>
          && outcome(k).read
          && var to := if PGSIZE * k + PGSIZE < s.readBytes then PGSIZE * k + PGSIZE else s.readBytes;
             s.filePage + to <= |file|)
  }

  class AddressSpace {
    var pages: map<int, Frame>

    /** install_page. */
    method Install(upage: int, frame: Frame, table: bool) returns (ok: bool)
      modifies this
      ensures ok <==> upage !in old(pages) && table
      ensures pages == if ok then old(pages)[upage := frame] else old(pages)
    {
      ok := upage !in pages && table;
      if ok {
        pages := pages[upage := frame];
      }
    }

    /** load_segment: `done` pages are mapped, all of them if it succeeds. */
    method LoadSegment(file: seq<int>, s: Segment, writable: bool, outcome: nat -> Outcome)
      returns (ok: bool, done: nat)
      requires SegmentOk(s)
      modifies this
      ensures PGSIZE * done <= Total(s) && pages == Mapped(old(pages), file, s, writable, done)
      ensures forall k: nat | k < done :: PageAt(s, k) !in old(pages)
      ensures ok ==> PGSIZE * done == Total(s) && (s.readBytes > 0 ==> s.filePage + s.readBytes <= |file|)
      ensures ok <==> forall k: nat | PGSIZE * k < Total(s) :: PageLoads(old(pages), file, s, outcome, k)
    {
      hide PageBytes;
      var pos, readBytes, zeroBytes, upage := s.filePage, s.readBytes, s.zeroBytes, s.memPage;
      done := 0;
      while readBytes > 0 || zeroBytes > 0
        invariant PGSIZE * done <= Total(s) && readBytes + zeroBytes == Total(s) - PGSIZE * done && zeroBytes >= 0
        invariant readBytes == if s.readBytes < PGSIZE * done then 0 else s.readBytes - PGSIZE * done
        invariant upage == PageAt(s, done) && pos == s.filePage + s.readBytes - readBytes
        invariant pages == Mapped(old(pages), file, s, writable, done)
        invariant forall k: nat | k < done :: PageAt(s, k) !in old(pages)
        invariant readBytes < s.readBytes ==> pos <= |file|
        invariant forall k: nat | k < done :: PageLoads(old(pages), file, s, outcome, k)
        decreases readBytes + zeroBytes
      {
        var pageRead := if readBytes < PGSIZE then readBytes else PGSIZE;
        var pageZero := PGSIZE - pageRead;
        if !outcome(done).frame {
          assert !PageLoads(old(pages), file, s, outcome, done);
          return false, done;
        }
        if pageRead > 0 && (pos + pageRead > |file| || !outcome(done).read) {
          assert !PageLoads(old(pages), file, s, outcome, done);
          return false, done;
        }
        WholePages(s, done);
        PageFilled(file, s, done, pos, pageRead);
        var frame := Frame((if pageRead > 0 then file[pos..pos + pageRead] else []) + seq(pageZero, _ => 0), writable);
        NotYetMapped(old(pages), file, s, writable, done);
        var put := Install(upage, frame, outcome(done).table);
        if !put {
          assert !PageLoads(old(pages), file, s, outcome, done);
          return false, done;
        }
        pos := pos + pageRead;
        readBytes := readBytes - pageRead;
        zeroBytes := zeroBytes - pageZero;
        upage := upage + PGSIZE;
        done := done + 1;
      }
      return true, done;
    }
  }

  lemma {:induction false} WholePages(s: Segment, n: nat)
    requires SegmentOk(s) && PGSIZE * n < Total(s)
    ensures PGSIZE * (n + 1) <= Total(s)
  {
  }

  lemma {:induction false} NotYetMapped(was: map<int, Frame>, file: seq<int>, s: Segment, writable: bool, n: nat)
    ensures PageAt(s, n) in Mapped(was, file, s, writable, n) <==> PageAt(s, n) in was
  {
    MappedOnly(was, file, s, writable, n, PageAt(s, n));
  }

  // ---------------------------------------------------------------- a PT_LOAD header

  /** The byte at a mapped address. */
  function ByteAt(pages: map<int, Frame>, a: int): int {
    if 0 <= a && PageOf(a) in pages && |pages[PageOf(a)].bytes| == PGSIZE then pages[PageOf(a)].bytes[a % PGSIZE]
    else -1
  }

  lemma {:induction false} SegmentByte(was: map<int, Frame>, file: seq<int>, s: Segment, writable: bool, n: nat, x: int)
    requires SegmentOk(s) && PGSIZE * n == Total(s) && 0 <= x < Total(s)
    ensures var pages := Mapped(was, file, s, writable, n);
      && ByteAt(pages, s.memPage + x) == Content(file, s, x) && PageOf(s.memPage + x) in pages
      && pages[PageOf(s.memPage + x)].writable == writable
  {
    hide Mapped, PageBytes, PageOf, Content;
    var k := x / PGSIZE;
    MappedHas(was, file, s, writable, n, k);
    PageOfByte(s.memPage, x);
    assert x == PGSIZE * k + x % PGSIZE;
  }

  lemma {:induction false} PageOfByte(page: int, x: int)
    requires page % PGSIZE == 0
    ensures PageOf(page + x) == page + PGSIZE * (x / PGSIZE) && (page + x) % PGSIZE == x % PGSIZE
  {
  }

  /** The segment is in memory: the file's bytes, then zeros, in pages that are writable just if the header says so. */
  ghost predicate Loaded(p: Phdr, file: seq<int>, pages: map<int, Frame>) {
    && (p.filesz > 0 ==> p.offset + p.filesz <= |file|)
    && forall i | 0 <= i < p.memsz ::
         ByteAt(pages, p.vaddr + i) == Content(file, Segment(p.offset, p.vaddr, p.filesz, 0), i)
         && PageOf(p.vaddr + i) in pages && pages[PageOf(p.vaddr + i)].writable == p.writable
  }

  /** Nothing outside user memory above page 0 is mapped, and what was mapped stays. */
  ghost predicate Confined(was: map<int, Frame>, pages: map<int, Frame>) {
    && (forall a | a in was :: a in pages && pages[a] == was[a])
    && (forall a | a in pages && a !in was :: PGSIZE <= a && a + PGSIZE <= PHYS_BASE)
  }

  lemma {:induction false} StaysConfined(was: map<int, Frame>, file: seq<int>, s: Segment, writable: bool, n: nat)
    requires SegmentOk(s) && PGSIZE * n <= Total(s) && forall k: nat | k < n :: PageAt(s, k) !in was
    ensures Confined(was, Mapped(was, file, s, writable, n))
    decreases n
  {
    hide PageBytes;
    if n > 0 { StaysConfined(was, file, s, writable, n - 1); }
  }

  lemma {:induction false} HeaderLoaded(p: Phdr, file: seq<int>, was: map<int, Frame>, n: nat)
    requires Fields(p) && Validate(p, |file|) && SegmentOk(SegmentOf(p)) && PGSIZE * n == Total(SegmentOf(p))
    requires SegmentOf(p).readBytes > 0 ==> SegmentOf(p).filePage + SegmentOf(p).readBytes <= |file|
    ensures Loaded(p, file, Mapped(was, file, SegmentOf(p), p.writable, n))
  {
    hide SegmentOf, Validate, Mapped, ByteAt, PageOf, Content, SegmentOk;
    NoWrap(p, |file|);
    var s := SegmentOf(p);
    var pages := Mapped(was, file, s, p.writable, n);
    forall i | 0 <= i < p.memsz ensures
      ByteAt(pages, p.vaddr + i) == Content(file, Segment(p.offset, p.vaddr, p.filesz, 0), i)
      && PageOf(p.vaddr + i) in pages && pages[PageOf(p.vaddr + i)].writable == p.writable
    {
      SegmentByte(was, file, s, p.writable, n, p.vaddr - s.memPage + i);
      SameContent(p, file, s, i);
    }
  }

  /** Byte `i` of the header's part is byte `vaddr - memPage + i` of the segment's. */
  lemma {:induction false} SameContent(p: Phdr, file: seq<int>, s: Segment, i: int)
    requires 0 <= i < p.memsz && 0 <= p.filesz && p.vaddr - s.memPage == p.offset - s.filePage >= 0 && 0 <= s.readBytes
    requires p.filesz > 0 ==> s.memPage + s.readBytes == p.vaddr + p.filesz
    requires p.filesz == 0 ==> s.readBytes == 0
    ensures Content(file, s, p.vaddr - s.memPage + i) == Content(file, Segment(p.offset, p.vaddr, p.filesz, 0), i)
  {
  }

  /** What page `k` needs of the rest of the kernel: a frame, a free place, a page table, and a good read if the file
      has bytes for it. */
  predicate Provided(was: map<int, Frame>, s: Segment, outcome: nat -> Outcome, k: nat) {
    outcome(k).frame && outcome(k).table && PageAt(s, k) !in was && (PGSIZE * k < s.readBytes ==> outcome(k).read)
  }

  lemma {:induction false} LastPage(was: map<int, Frame>, file: seq<int>, s: Segment, outcome: nat -> Outcome, k: nat)
    requires SegmentOk(s) && PGSIZE * k < s.readBytes <= PGSIZE * k + PGSIZE
    ensures PageLoads(was, file, s, outcome, k) ==> s.filePage + s.readBytes <= |file|
  {
  }

  lemma {:induction false} PagesLoad(was: map<int, Frame>, file: seq<int>, s: Segment, outcome: nat -> Outcome)
    requires SegmentOk(s)
    ensures (forall k: nat | PGSIZE * k < Total(s) :: PageLoads(was, file, s, outcome, k)) <==>
      && (s.readBytes > 0 ==> s.filePage + s.readBytes <= |file|)
      && forall k: nat | PGSIZE * k < Total(s) :: Provided(was, s, outcome, k)
  {
    hide PageAt;
    if s.readBytes > 0 {
      var k: nat := (s.readBytes - 1) / PGSIZE;
      assert PGSIZE * k < s.readBytes <= PGSIZE * k + PGSIZE && PGSIZE * k < Total(s);
      LastPage(was, file, s, outcome, k);
    }
    forall k: nat ensures PageLoads(was, file, s, outcome, k) ==> Provided(was, s, outcome, k) {}
    if s.readBytes > 0 ==> s.filePage + s.readBytes <= |file| {
      forall k: nat | Provided(was, s, outcome, k) ensures PageLoads(was, file, s, outcome, k) {}
    }
  }

  /** An accepted header is loaded exactly when all its bytes are in the file and each page gets what it needs. */
  lemma {:induction false} LoadsExactly(was: map<int, Frame>, file: seq<int>, p: Phdr, outcome: nat -> Outcome)
    requires Fields(p) && Validate(p, |file|)
    ensures var s := SegmentOf(p);
      (forall k: nat | PGSIZE * k < Total(s) :: PageLoads(was, file, s, outcome, k)) <==>
        && (p.filesz > 0 ==> p.offset + p.filesz <= |file|)
        && forall k: nat | PGSIZE * k < Total(s) :: Provided(was, s, outcome, k)
  {
    hide SegmentOf, Validate, PageLoads, Provided;
    NoWrap(p, |file|);
    PagesLoad(was, file, SegmentOf(p), outcome);
  }

  /** The PT_LOAD case of load. */
  method LoadHeader(space: AddressSpace, file: seq<int>, p: Phdr, outcome: nat -> Outcome) returns (ok: bool)
    requires Fields(p)
    modifies space
    ensures ok ==> Validate(p, |file|) && Loaded(p, file, space.pages)
    ensures Confined(old(space.pages), space.pages)
    ensures !Validate(p, |file|) ==> !ok && space.pages == old(space.pages)
    ensures ok <==>
      Validate(p, |file|) && forall k: nat | PGSIZE * k < Total(SegmentOf(p)) ::
          PageLoads(old(space.pages), file, SegmentOf(p), outcome, k)
  {
    ghost var was := space.pages;
    if !Validate(p, |file|) {
      return false;
    }
    NoWrap(p, |file|);
    var s := SegmentOf(p);
    hide Validate, SegmentOf, SegmentOk, Mapped, Loaded, Confined, PageLoads;
    var done: nat;
    ok, done := space.LoadSegment(file, s, p.writable, outcome);
    StaysConfined(was, file, s, p.writable, done);
    if ok { HeaderLoaded(p, file, was, done); }
  }
}
