/**
 Files that do not disturb each other (filesys/inode.c): which sectors a new file takes, when two files share none, and
 what writing one then does to the other.
 */
module FileIsolation {
  import opened Basics
  import opened Sectors
  import opened FreeMap
  import opened InodeTree
  import opened InodeData

  /** The allocations of a new file, and its inode. */
  function Taken(s: Start, length: int): seq<int>
    requires 0 <= length
  {
    TotalIsNat(BytesToSectors(length));
    Allocations(s, TotalSectors(BytesToSectors(length)))
  }

  lemma {:induction false} TotalIsNat(n: int)
    requires 0 <= n
    ensures TotalSectors(n) >= 0
  {
  }

  function NewNode(s: Start, length: int): OnDisk
    requires 0 <= length
  {
    Node(Taken(s, length), length)
  }

  // ---------------------------------------------------------------- the sectors of one file

  /** The sectors of a new file are allocations of its own, and sector 0, that of the free map's inode, exactly when the
      last logical sector got none; its index blocks are allocations of its own. */
  lemma {:induction false} SectorsOf(was: seq<seq<int>>, s: Start, sector: int, length: int, now: seq<seq<int>>)
    requires Created(was, s, sector, length, now)
    ensures var d, ps := NewNode(s, length), Taken(s, length);
      && Usable(now, d) && d == FromBlock(now[sector])
      && (forall p | p in FileMap(now, d) :: p in ps || p == 0)
      && (0 in FileMap(now, d) <==> !Even(Length(d)))
      && (forall p | IsIndex(now, d, p) :: p in ps)
  {
    var d, ps := NewNode(s, length), Taken(s, length);
    CreatedUsable(was, s, sector, length, now);
    hide Created, Taken, SectorAt, Readable, Usable, IsIndex, BytesToSectors, FromBlock, Node, FileMap, Even;
    var m, n := FileMap(now, d), Length(d);
    MapLength(now, d);
    forall j | 0 <= j < n
      ensures if Even(n) || j < n - 1 then m[j] in ps && m[j] != 0 else m[j] == 0
    {
      SectorOf(was, s, sector, length, now, j);
    }
    forall p | IsIndex(now, d, p) ensures p in ps { IndexOf(was, s, sector, length, now, p); }
    if !Even(n) {
      SomeSector(n);
      assert m[n - 1] == 0;
    }
  }

  lemma {:induction false} MapLength(blocks: seq<seq<int>>, d: OnDisk)
    requires Usable(blocks, d)
    ensures |FileMap(blocks, d)| == Length(d) >= 0
  {
  }

  lemma {:induction false} SomeSector(n: int)
    requires n >= 0 && !Even(n)
    ensures n > 0
  {
  }

  lemma {:induction false} SectorOf(was: seq<seq<int>>, s: Start, sector: int, length: int, now: seq<seq<int>>, j: int)
    requires Created(was, s, sector, length, now) && Usable(now, NewNode(s, length)) && 0 <= j < BytesToSectors(length)
    ensures var d, ps, n := NewNode(s, length), Taken(s, length), BytesToSectors(length);
      && j < |FileMap(now, d)|
      && var p := FileMap(now, d)[j]; if Even(n) || j < n - 1 then p in ps && p != 0 else p == 0
  {
    CreatedSector(was, s, sector, length, now, j);
    NotZero(was, s, sector, length, now);
    SlotIsNat(j);
    hide Created, SectorAt, Readable, Usable, Slot, BytesToSectors, Even, Allocations, Node;
    assert FileMap(now, NewNode(s, length))[j] == SectorAt(now, NewNode(s, length), j);
  }

  lemma {:induction false} SlotIsNat(j: int)
    requires 0 <= j
    ensures Slot(j) >= 0
  {
  }

  lemma {:induction false} IndexOf(was: seq<seq<int>>, s: Start, sector: int, length: int, now: seq<seq<int>>, p: int)
    requires Created(was, s, sector, length, now) && IsIndex(now, NewNode(s, length), p)
    ensures p in Taken(s, length)
  {
    var d := NewNode(s, length);
    var j :| DIRECT <= j < Length(d) && Readable(now, d, j) && (p == d.ib || p == Word(now[d.ib], GroupOf(j)));
    CreatedSector(was, s, sector, length, now, j);
  }

  /** Every sector of a new file was free exactly when the count of its sectors is even. */
  lemma {:induction false} FreeBefore(was: seq<seq<int>>, s: Start, sector: int, length: int, now: seq<seq<int>>)
    requires Created(was, s, sector, length, now)
    ensures var d := NewNode(s, length);
      && Usable(now, d)
      && ((forall p | p in FileMap(now, d) :: 0 <= p < |s.bits| && !s.bits[p]) <==> Even(Length(d)))
  {
    SectorsOf(was, s, sector, length, now);
    CreatedLaid(was, s, sector, length, now);
    assert s.bits[0];
    UsableMap(now, NewNode(s, length));
    hide Usable, IsIndex, NewNode, FileMap, Laid, Created, Even;
  }

  // ---------------------------------------------------------------- two files

  /** The second file is made after the first: what is marked stays marked, its inode is in none of the first file's
      sectors, the free map file is the same, and the first file's index is still on the device. */
  ghost predicate Later(s: Start, length: int, now: seq<seq<int>>, next: Start, sector: int, before: seq<seq<int>>)
    requires 0 <= length
  {
    && |next.bits| == |s.bits| && next.file == s.file && sector !in Taken(s, length)
    && (forall p | 0 <= p < |s.bits| && After(s.bits, s.written, |Taken(s, length)|)[p] :: next.bits[p])
    && |before| == |now| && Formatted(before)
    && forall p | 0 <= p < |now| && IsIndex(now, NewNode(s, length), p) :: before[p] == now[p]
  }

  /** The allocations of the second file are none of the first file's. */
  lemma {:induction false} TakenApart(was: seq<seq<int>>, s: Start, a: int, length: int, now: seq<seq<int>>,
                                      before: seq<seq<int>>, next: Start, b: int, more: int, after: seq<seq<int>>)
    requires Created(was, s, a, length, now) && Created(before, next, b, more, after)
    requires Later(s, length, now, next, b, before)
    ensures forall p | p in Taken(s, length) :: p !in Taken(next, more) && p != b && p !in next.file
  {
    CreatedLaid(was, s, a, length, now);
    CreatedLaid(before, next, b, more, after);
    FreshExactly(s.bits, s.position, s.written, |Taken(s, length)|);
    hide Laid, After, Positions, FromBlock, IsIndex;
  }

  /** Sectors outside the new file's allocations, the free map file and the inode are as they were. */
  lemma {:induction false} CreatedElsewhere(was: seq<seq<int>>, s: Start, sector: int, length: int,
                                            now: seq<seq<int>>, p: int)
    requires Created(was, s, sector, length, now) && 0 <= p < |was|
    requires p !in Taken(s, length) && p != sector && p !in s.file
    ensures now[p] == was[p]
  {
    var ps := Taken(s, length);
    hide Taken, Pack, FirstLevel, InodeWords, Groups;
    if |ps| > DIRECT {
      GroupsPositive(|ps|);
      forall g: nat | g < Groups(|ps|) ensures ps[GroupSlot(g)] != p { GroupSlotIn(|ps|, g); }
      GroupsElsewhere(was, ps, Groups(|ps|), p);
    }
  }

  /** Both files can be used after the second is made; they share no sector exactly when one of the two counts is
      even; and
      neither has a sector where the other has an index block. */
  lemma {:induction false} FilesApart(was: seq<seq<int>>, s: Start, a: int, length: int, now: seq<seq<int>>,
                                      before: seq<seq<int>>, next: Start, b: int, more: int, after: seq<seq<int>>)
    requires Created(was, s, a, length, now) && Created(before, next, b, more, after)
    requires Later(s, length, now, next, b, before)
    ensures var d, e := NewNode(s, length), NewNode(next, more);
      && Usable(now, d) && Usable(after, d) && Usable(after, e) && FileMap(after, d) == FileMap(now, d)
      && (NoneShared(FileMap(after, d), FileMap(after, e)) <==> Even(Length(d)) || Even(Length(e)))
      && NoIndexIn(after, e, FileMap(after, d)) && NoIndexIn(after, d, FileMap(after, e))
  {
    var d, e := NewNode(s, length), NewNode(next, more);
    SectorsOf(was, s, a, length, now);
    SectorsOf(before, next, b, more, after);
    TakenApart(was, s, a, length, now, before, next, b, more, after);
    NotZero(was, s, a, length, now);
    NotZero(before, next, b, more, after);
    forall p | 0 <= p < |now| && IsIndex(now, d, p) ensures after[p] == now[p] {
      CreatedElsewhere(before, next, b, more, after, p);
    }
    assert Formatted(after) && |after| == |now|;
    SameIndex(now, after, d);
    hide Created, Later, Usable, IsIndex, NewNode, Taken, FileMap, Even, Length, FromBlock;
    ApartFrom(FileMap(after, d), Taken(s, length), FileMap(after, e), Taken(next, more));
  }

  lemma {:induction false} NotZero(was: seq<seq<int>>, s: Start, sector: int, length: int, now: seq<seq<int>>)
    requires Created(was, s, sector, length, now)
    ensures 0 !in Taken(s, length)
  {
    CreatedLaid(was, s, sector, length, now);
  }

  ghost predicate NoneShared(a: seq<int>, b: seq<int>) {
    forall p | p in a :: p !in b
  }

  ghost predicate NoIndexIn(blocks: seq<seq<int>>, d: OnDisk, m: seq<int>) {
    forall p | IsIndex(blocks, d, p) :: p !in m
  }

  lemma {:induction false} ApartFrom(m: seq<int>, ps: seq<int>, n: seq<int>, qs: seq<int>)
    requires (forall p | p in m :: p in ps || p == 0) && (forall p | p in n :: p in qs || p == 0)
    requires (forall p | p in ps :: p !in qs) && 0 !in ps && 0 !in qs
    ensures NoneShared(m, n) <==> !(0 in m && 0 in n)
  {
  }

  // ---------------------------------------------------------------- writing one of them

  /** Writing a file leaves the contents of another that shares no sector with it and has no index block there. */
  lemma {:induction false} WriteApart(was: seq<seq<int>>, now: seq<seq<int>>, d: OnDisk, offset: int, data: seq<int>,
                                      e: OnDisk)
    requires Wrote(was, now, d, offset, data) && Usable(was, e)
    requires NoneShared(FileMap(was, d), FileMap(was, e)) && NoIndexIn(was, e, FileMap(was, d))
    ensures Usable(now, e) && FileMap(now, e) == FileMap(was, e) && Contents(now, e) == Contents(was, e)
  {
    assert Formatted(now) && |now| == |was|;
    forall p | 0 <= p < |was| && IsIndex(was, e, p) ensures now[p] == was[p] {}
    SameIndex(was, now, e);
    UsableMap(was, e);
    UsableMap(now, e);
    hide Usable, IsIndex, FileMap, NoIndexIn;
    var m := FileMap(was, e);
    forall i | 0 <= i < e.length ensures FlatAt(now, m, e.length, i) == FlatAt(was, m, e.length, i) {
      assert m[SectorNo(i)] in m;
    }
    assert Flat(now, m, e.length) == Flat(was, m, e.length);
  }

  /** So inode_write_at on one of two files, not both with an uneven count of sectors, leaves the contents of the
      other. */
  lemma {:induction false} WritesApart(was: seq<seq<int>>, s: Start, a: int, length: int, now: seq<seq<int>>,
                                       before: seq<seq<int>>, next: Start, b: int, more: int, after: seq<seq<int>>,
                                       written: seq<seq<int>>, offset: int, data: seq<int>)
    requires Created(was, s, a, length, now) && Created(before, next, b, more, after)
    requires Later(s, length, now, next, b, before)
    requires Even(BytesToSectors(length)) || Even(BytesToSectors(more))
    ensures var d, e := NewNode(s, length), NewNode(next, more);
      && Usable(after, d) && Usable(after, e)
      && (Wrote(after, written, d, offset, data) ==>
            Usable(written, e) && Contents(written, e) == Contents(after, e))
      && (Wrote(after, written, e, offset, data) ==>
            Usable(written, d) && Contents(written, d) == Contents(after, d))
  {
    FilesApart(was, s, a, length, now, before, next, b, more, after);
    var d, e := NewNode(s, length), NewNode(next, more);
    hide Created, Later, Usable, NewNode, Contents, Wrote, NoIndexIn;
    if Wrote(after, written, d, offset, data) { WriteApart(after, written, d, offset, data, e); }
    if Wrote(after, written, e, offset, data) { WriteApart(after, written, e, offset, data, d); }
  }

  /** Two files with uneven counts have the same bytes in their last sectors, whatever is written to either. */
  lemma {:induction false} LastSectorShared(blocks: seq<seq<int>>, d: OnDisk, e: OnDisk, k: int)
    requires Usable(blocks, d) && Usable(blocks, e) && Length(d) > 0 && Length(e) > 0
    requires SectorAt(blocks, d, Length(d) - 1) == 0 && SectorAt(blocks, e, Length(e) - 1) == 0
    requires 0 <= k && SECTOR_SIZE * (Length(d) - 1) + k < d.length && SECTOR_SIZE * (Length(e) - 1) + k < e.length
    ensures Contents(blocks, d)[SECTOR_SIZE * (Length(d) - 1) + k] == blocks[0][k]
    ensures Contents(blocks, e)[SECTOR_SIZE * (Length(e) - 1) + k] == blocks[0][k]
  {
    LastByte(blocks, d, k);
    LastByte(blocks, e, k);
  }

  lemma {:induction false} LastByte(blocks: seq<seq<int>>, d: OnDisk, k: int)
    requires Usable(blocks, d) && Length(d) > 0 && SectorAt(blocks, d, Length(d) - 1) == 0
    requires 0 <= k && SECTOR_SIZE * (Length(d) - 1) + k < d.length
    ensures k < SECTOR_SIZE && Contents(blocks, d)[SECTOR_SIZE * (Length(d) - 1) + k] == blocks[0][k]
  {
    UsableMap(blocks, d);
    var m, i := FileMap(blocks, d), SECTOR_SIZE * (Length(d) - 1) + k;
    LastPlace(d.length, k);
    assert m[Length(d) - 1] == 0;
    assert Flat(blocks, m, d.length)[i] == FlatAt(blocks, m, d.length, i);
  }

  lemma {:induction false} LastPlace(length: int, k: int)
    requires var n := BytesToSectors(length); n > 0 && 0 <= k && SECTOR_SIZE * (n - 1) + k < length
    ensures var i := SECTOR_SIZE * (BytesToSectors(length) - 1) + k;
      k < SECTOR_SIZE && i / SECTOR_SIZE == BytesToSectors(length) - 1 && i % SECTOR_SIZE == k
  {
  }
}
