/**
 The sectors of a file (filesys/inode.c): 124 in the inode, the rest behind a two-level index. The tree that
 write_sectors_to_disk lays out is read back by byte_to_sector.
 */
module InodeTree {
  import opened Basics
  import opened Sectors
  import opened Bitmap
  import opened FreeMap

  const DIRECT: int := 124
  const MAX_BLOCKS: int := 16637
  const MAGIC: int := 0x494e4f44

  // ---------------------------------------------------------------- on-disk inodes

  datatype OnDisk = OnDisk(sectors: seq<int>, ib: int, isDirectory: bool, length: int, magic: int)

  function InodeWords(d: OnDisk): seq<int> {
    d.sectors + [d.ib, if d.isDirectory then 1 else 0, d.length, d.magic]
  }

  function FromBlock(b: seq<int>): OnDisk
    requires |b| == SECTOR_SIZE
  {
    OnDisk(seq(DIRECT, i requires 0 <= i < DIRECT => Word(b, i)),
           Word(b, 124), Word(b, 125) != 0, Word(b, 126), Word(b, 127))
  }

  ghost predicate Storable(d: OnDisk) {
    |d.sectors| == DIRECT && AllWords(d.sectors) && IsWord(d.ib) && IsWord(d.length) && IsWord(d.magic)
  }

  lemma {:induction false} InodeRoundTrip(d: OnDisk)
    requires Storable(d)
    ensures |Pack(InodeWords(d))| == SECTOR_SIZE && FromBlock(Pack(InodeWords(d))) == d
  {
    hide Word, Pack, IsWord;
    var w := InodeWords(d);
    forall i | 0 <= i < 128 ensures Word(Pack(w), i) == w[i] {
      assert IsWord(0) && IsWord(1) by { SmallWords(); }
      PackWord(w, i);
    }
  }

  lemma {:induction false} SmallWords()
    ensures IsWord(0) && IsWord(1)
  {
  }

  // ---------------------------------------------------------------- byte_to_sector

  function GroupOf(j: int): int { (j - DIRECT) / 128 }   // first_ib_index

  function EntryOf(j: int): int { (j - DIRECT) % 128 }   // second_ib_index

  /** The reads of index blocks that byte_to_sector makes for logical sector `j` stay on the device. */
  ghost predicate Readable(blocks: seq<seq<int>>, d: OnDisk, j: int) {
    && 0 <= j && |d.sectors| == DIRECT && Formatted(blocks)
    && (j >= DIRECT ==>
          && GroupOf(j) < WORDS && 0 <= d.ib < |blocks|
          && 0 <= Word(blocks[d.ib], GroupOf(j)) < |blocks|)
  }

  function SectorAt(blocks: seq<seq<int>>, d: OnDisk, j: int): int
    requires Readable(blocks, d, j)
  {
    if j < DIRECT then d.sectors[j]
    else Word(blocks[Word(blocks[d.ib], GroupOf(j))], EntryOf(j))
  }

  function ByteToSector(blocks: seq<seq<int>>, d: OnDisk, pos: int): int
    requires 0 <= pos && (pos < d.length ==> Readable(blocks, d, SectorNo(pos)))
  {
    if pos < d.length then SectorAt(blocks, d, SectorNo(pos)) else -1
  }

  // ---------------------------------------------------------------- how many sectors

  function BytesToSectors(size: int): int { (size + SECTOR_SIZE - 1) / SECTOR_SIZE }

  /** compute_total_sectors. */
  function TotalSectors(n: int): int {
    if n <= DIRECT then n else (n - DIRECT) + (n - DIRECT) / 128 + 1 + DIRECT
  }

  /** A file has the sectors that hold its bytes and not one more. */
  lemma {:induction false} JustEnough(length: int)
    requires 0 <= length
    ensures var n := BytesToSectors(length); 0 <= n && SECTOR_SIZE * (n - 1) < length <= SECTOR_SIZE * n
  {
  }

  /** The second-level blocks that `total` sectors make. */
  function Groups(total: int): int {
    if total <= DIRECT + 1 then 0 else (total - DIRECT - 1 + 128) / 129
  }

  /** The place of logical sector `j` among the allocations. */
  function Slot(j: int): int {
    if j < DIRECT then j else j + 2 + (j - DIRECT) / 128
  }

  function GroupSlot(g: int): (i: int)
    ensures g >= 0 ==> i > DIRECT
  {
    DIRECT + 1 + 129 * g
  }

  lemma {:induction false} SlotIn(j: int)
    requires j >= DIRECT
    ensures Slot(j) == GroupSlot(GroupOf(j)) + 1 + EntryOf(j) && 0 <= GroupOf(j) && 0 <= EntryOf(j) < 128
  {
  }

  /** Later logical sectors are allocated later, and none where an index block is. */
  lemma {:induction false} SlotsApart(j: int, k: int, g: int)
    requires 0 <= j < k && 0 <= g
    ensures Slot(j) < Slot(k) && Slot(j) != DIRECT && Slot(j) != GroupSlot(g)
  {
  }

  /** No allocation is wasted: each is for a logical sector, for the first-level block, or for the second-level block of
      a logical sector. */
  lemma {:induction false} NoneWasted(n: int, i: int)
    requires 0 <= i < TotalSectors(n)
    ensures
      || (exists j :: 0 <= j < n && Slot(j) == i)
      || (i == DIRECT && n > DIRECT)
      || exists j :: DIRECT <= j < n && GroupSlot(GroupOf(j)) == i
  {
    if i < DIRECT {
      assert Slot(i) == i;
    } else if i > DIRECT {
      IndexedSlot(n, (i - DIRECT - 1) / 129, (i - DIRECT - 1) % 129);
    }
  }

  lemma {:induction false} IndexedSlot(n: int, g: int, r: int)
    requires n > DIRECT && 0 <= g && 0 <= r < 129 && GroupSlot(g) + r < TotalSectors(n)
    ensures var j := DIRECT + 128 * g + (if r == 0 then 0 else r - 1);
      DIRECT <= j < n && if r == 0 then GroupSlot(GroupOf(j)) == GroupSlot(g) + r else Slot(j) == GroupSlot(g) + r
  {
  }

  /** An inode that is not too large has a first-level entry for each second-level block, and one for each sector. */
  lemma {:induction false} GroupsFit(n: int)
    requires 0 <= n && TotalSectors(n) <= MAX_BLOCKS
    ensures Groups(TotalSectors(n)) <= 128
    ensures forall j | DIRECT <= j < n :: GroupOf(j) < Groups(TotalSectors(n))
  {
  }

  /** Which logical sectors get a sector: all, when the count is at most 124 or 124 plus a multiple of 128; else all
      but the last. */
  ghost predicate Even(n: int) {
    n <= DIRECT || (n - DIRECT) % 128 == 0
  }

  lemma {:induction false} SlotCovered(n: int, j: int)
    requires 0 <= j < n
    ensures Slot(j) < TotalSectors(n) <==> Even(n) || j < n - 1
  {
  }

  // ---------------------------------------------------------------- the tree

  function PointerAt(ps: seq<int>, i: int): int {
    if 0 <= i < |ps| then ps[i] else 0
  }

  function Direct(ps: seq<int>): (b: seq<int>)
    ensures |b| == DIRECT && forall i | 0 <= i < DIRECT :: b[i] == PointerAt(ps, i)
  {
    seq(DIRECT, i => PointerAt(ps, i))
  }

  /** 128 pointers from allocation `i` on. */
  function Window(ps: seq<int>, i: int): (b: seq<int>)
    ensures |b| == WORDS && forall k | 0 <= k < WORDS :: b[k] == PointerAt(ps, i + k)
  {
    seq(WORDS, k => PointerAt(ps, i + k))
  }

  function SecondLevel(ps: seq<int>, g: int): (b: seq<int>)
    ensures |b| == WORDS
  {
    Window(ps, GroupSlot(g) + 1)
  }

  function FirstLevel(ps: seq<int>): (b: seq<int>)
    ensures |b| == WORDS && forall g | 0 <= g < WORDS :: b[g] == PointerAt(ps, GroupSlot(g))
  {
    seq(WORDS, g => PointerAt(ps, GroupSlot(g)))
  }

  ghost predicate OnDevice(blocks: seq<seq<int>>, ps: seq<int>) {
    |blocks| <= B32 && forall i | 0 <= i < |ps| :: 0 <= ps[i] < |blocks|
  }

  /** The device after `g` second-level blocks are written. */
  function WithGroups(blocks: seq<seq<int>>, ps: seq<int>, g: nat): (r: seq<seq<int>>)
    requires OnDevice(blocks, ps) && (g > 0 ==> GroupSlot(g - 1) < |ps|)
    ensures |r| == |blocks|
  {
    if g == 0 then blocks else WithGroups(blocks, ps, g - 1)[ps[GroupSlot(g - 1)] := Pack(SecondLevel(ps, g - 1))]
  }

  /** The device after the whole index is written. */
  function Tree(blocks: seq<seq<int>>, ps: seq<int>): (r: seq<seq<int>>)
    requires OnDevice(blocks, ps)
    ensures |r| == |blocks|
  {
    if |ps| <= DIRECT then blocks else WithGroups(blocks, ps, Groups(|ps|))[ps[DIRECT] := Pack(FirstLevel(ps))]
  }

  function Node(ps: seq<int>, length: int): OnDisk {
    OnDisk(Direct(ps), PointerAt(ps, DIRECT), false, length, MAGIC)
  }

  lemma {:induction false} GroupSlotIn(total: int, g: int)
    requires 0 <= g
    ensures g < Groups(total) <==> GroupSlot(g) < total
  {
  }

  /** Every second-level block is on the device as it was written. */
  lemma {:induction false} GroupsRead(blocks: seq<seq<int>>, ps: seq<int>, n: nat, g: nat)
    requires OnDevice(blocks, ps) && Distinct(ps) && g < n && GroupSlot(n - 1) < |ps|
    ensures WithGroups(blocks, ps, n)[ps[GroupSlot(g)]] == Pack(SecondLevel(ps, g))
    decreases n
  {
    hide Pack, SecondLevel;
    if g < n - 1 { GroupsRead(blocks, ps, n - 1, g); }
  }

  /** Sectors that hold no index block are as they were. */
  lemma {:induction false} GroupsElsewhere(blocks: seq<seq<int>>, ps: seq<int>, n: nat, p: int)
    requires OnDevice(blocks, ps) && 0 <= p < |blocks| && (n > 0 ==> GroupSlot(n - 1) < |ps|)
    requires forall g: nat | g < n :: ps[GroupSlot(g)] != p
    ensures WithGroups(blocks, ps, n)[p] == blocks[p]
    decreases n
  {
    hide Pack, SecondLevel;
    if n > 0 { GroupsElsewhere(blocks, ps, n - 1, p); }
  }

  /** The sector `sector` holds the inode; the index blocks are as the tree left them. */
  ghost predicate Laid(blocks: seq<seq<int>>, ps: seq<int>, now: seq<seq<int>>) {
    && OnDevice(blocks, ps) && Formatted(blocks) && Formatted(now) && |now| == |blocks|
    && (|ps| > DIRECT ==> now[ps[DIRECT]] == Pack(FirstLevel(ps)))
    && (forall g: nat | GroupSlot(g) < |ps| :: now[ps[GroupSlot(g)]] == Pack(SecondLevel(ps, g)))
  }

  lemma {:induction false} TreeLaid(blocks: seq<seq<int>>, ps: seq<int>, file: set<int>, now: seq<seq<int>>)
    requires OnDevice(blocks, ps) && Formatted(blocks) && Distinct(ps) && Formatted(now)
    requires Agree(Tree(blocks, ps), now, file) && forall i | 0 <= i < |ps| :: ps[i] !in file
    ensures Laid(blocks, ps, now)
  {
    hide Pack, SecondLevel, FirstLevel, Groups, GroupSlot;
    if |ps| > DIRECT {
      var n := Groups(|ps|);
      GroupsPositive(|ps|);
      forall g: nat | GroupSlot(g) < |ps| ensures now[ps[GroupSlot(g)]] == Pack(SecondLevel(ps, g)) {
        GroupSlotIn(|ps|, g);
        GroupsRead(blocks, ps, n, g);
      }
    }
  }

  lemma {:induction false} GroupsPositive(total: int)
    ensures Groups(total) >= 0 && (Groups(total) > 0 ==> GroupSlot(Groups(total) - 1) < total)
  {
  }

  lemma {:induction false} PointerWord(blocks: seq<seq<int>>, ps: seq<int>, i: int)
    requires OnDevice(blocks, ps)
    ensures IsWord(PointerAt(ps, i))
  {
  }

  /** byte_to_sector reads back the allocation of each logical sector, or the zero left where none was made. */
  lemma {:induction false} ReadBack(blocks: seq<seq<int>>, ps: seq<int>, now: seq<seq<int>>, length: int, j: int)
    requires Laid(blocks, ps, now) && 0 <= j && (j >= DIRECT ==> GroupOf(j) < WORDS && GroupSlot(GroupOf(j)) < |ps|)
    ensures Readable(now, Node(ps, length), j) && SectorAt(now, Node(ps, length), j) == PointerAt(ps, Slot(j))
    ensures j >= DIRECT ==> Word(now[Node(ps, length).ib], GroupOf(j)) == ps[GroupSlot(GroupOf(j))]
  {
    hide Pack, Word, GroupSlot, GroupOf, EntryOf;
    if j >= DIRECT {
      SlotIn(j);
      var g, k := GroupOf(j), EntryOf(j);
      PointerWord(blocks, ps, GroupSlot(g));
      PointerWord(blocks, ps, Slot(j));
      PackWord(FirstLevel(ps), g);
      PackWord(SecondLevel(ps, g), k);
    }
  }

  // ---------------------------------------------------------------- allocation

  /** The free map after `n` allocations of one sector, of which those not `written` fail. */
  function After(bits: seq<bool>, written: nat -> bool, n: nat): (r: seq<bool>)
    ensures |r| == |bits|
  {
    if n == 0 then bits
    else
      var b := After(bits, written, n - 1);
      var i := FirstClear(b);
      if written(n - 1) && i < |b| then b[i := true] else b
  }

  /** The value of `position` after allocation `n`; a failed allocation leaves it, and `start` is its value before the
      first. */
  function PosAt(bits: seq<bool>, start: int, written: nat -> bool, n: nat): int {
    var i := FirstClear(After(bits, written, n));
    if written(n) && i < |bits| then i else if n == 0 then start else PosAt(bits, start, written, n - 1)
  }

  function Positions(bits: seq<bool>, start: int, written: nat -> bool, n: nat): seq<int> {
    seq(n, i requires i >= 0 => PosAt(bits, start, written, i))
  }

  ghost predicate AllWritten(written: nat -> bool, n: nat) {
    forall i: nat | i < n :: written(i)
  }

  lemma {:induction false} PosInRange(bits: seq<bool>, start: int, written: nat -> bool, n: nat)
    requires 0 <= start < |bits|
    ensures 0 <= PosAt(bits, start, written, n) < |bits|
  {
    if n > 0 { PosInRange(bits, start, written, n - 1); }
  }

  /** A free map with room gives a sector that was free each time, each past the one before. */
  lemma {:induction false} AllocatedUpTo(bits: seq<bool>, start: int, written: nat -> bool, n: nat)
    requires AllWritten(written, n) && Count(bits, false) >= n
    ensures Count(After(bits, written, n), false) == Count(bits, false) - n
    ensures forall k: nat | k < |bits| :: bits[k] ==> After(bits, written, n)[k]
    ensures n > 0 ==> var p := PosAt(bits, start, written, n - 1);
      0 <= p < |bits| && !bits[p] && forall k: nat | k <= p :: After(bits, written, n)[k]
  {
    if n > 0 {
      AllocatedUpTo(bits, start, written, n - 1);
      var b := After(bits, written, n - 1);
      SomeClear(b);
      CountSet(b, FirstClear(b));
    }
  }

  lemma {:induction false} PositionsIncrease(bits: seq<bool>, start: int, written: nat -> bool, n: nat, i: nat, j: nat)
    requires AllWritten(written, n) && Count(bits, false) >= n && i < j < n
    ensures PosAt(bits, start, written, i) < PosAt(bits, start, written, j)
    decreases j
  {
    AllocatedUpTo(bits, start, written, j);
    SomeClear(After(bits, written, j));
    if i < j - 1 { PositionsIncrease(bits, start, written, n, i, j - 1); }
  }

  /** With room for `n` and every write done: `n` distinct sectors that were free, in increasing order. */
  lemma {:induction false} PositionsFresh(bits: seq<bool>, start: int, written: nat -> bool, n: nat)
    requires AllWritten(written, n) && Count(bits, false) >= n
    ensures var ps := Positions(bits, start, written, n);
      Distinct(ps) && (forall i | 0 <= i < n :: 0 <= ps[i] < |bits| && !bits[ps[i]])
      && (forall i, j | 0 <= i < j < n :: ps[i] < ps[j])
  {
    var ps := Positions(bits, start, written, n);
    forall i, j | 0 <= i < j < n ensures ps[i] < ps[j] { PositionsIncrease(bits, start, written, n, i, j); }
    forall i | 0 <= i < n ensures 0 <= ps[i] < |bits| && !bits[ps[i]] { AllocatedUpTo(bits, start, written, i + 1); }
  }

  /** A write that fails after the first allocation hands the same sector out twice. */
  lemma {:induction false} StalePosition(bits: seq<bool>, start: int, written: nat -> bool, n: nat, i: nat)
    requires 0 < i < n && !written(i)
    ensures !Distinct(Positions(bits, start, written, n))
  {
    var ps := Positions(bits, start, written, n);
    assert ps[i - 1] == ps[i];
  }

  /** A sector that the free map comes to mark was handed out. */
  lemma {:induction false} MarkedIsHandedOut(bits: seq<bool>, start: int, written: nat -> bool, n: nat, p: nat)
    requires p < |bits| && !bits[p] && After(bits, written, n)[p]
    ensures exists i: nat :: i < n && written(i) && PosAt(bits, start, written, i) == p
  {
    if After(bits, written, n - 1)[p] {
      MarkedIsHandedOut(bits, start, written, n - 1, p);
    } else {
      assert PosAt(bits, start, written, n - 1) == p;
    }
  }

  /** `n` distinct sectors that were free and are now marked: what the allocations of a file are to be. */
  ghost predicate Fresh(bits: seq<bool>, start: int, written: nat -> bool, n: nat) {
    var ps := Positions(bits, start, written, n);
    && Distinct(ps)
    && forall i | 0 <= i < n :: 0 <= ps[i] < |bits| && !bits[ps[i]] && After(bits, written, n)[ps[i]]
  }

  /** With room for `n`, they are exactly when every write of the free map is done. */
  lemma {:induction false} FreshExactly(bits: seq<bool>, start: int, written: nat -> bool, n: nat)
    requires Count(bits, false) >= n
    ensures Fresh(bits, start, written, n) <==> AllWritten(written, n)
  {
    if AllWritten(written, n) {
      PositionsFresh(bits, start, written, n);
      forall i: nat | i < n
        ensures var p := PosAt(bits, start, written, i); 0 <= p < |bits| && After(bits, written, n)[p]
      {
        AllocatedUpTo(bits, start, written, i + 1);
        StaysMarked(bits, written, i + 1, n, PosAt(bits, start, written, i));
      }
    } else {
      var i: nat :| i < n && !written(i);
      if i > 0 {
        StalePosition(bits, start, written, n, i);
      } else if Fresh(bits, start, written, n) {
        StaleStart(bits, start, written, n);
      }
    }
  }

  lemma {:induction false} StaysMarked(bits: seq<bool>, written: nat -> bool, i: nat, n: nat, p: nat)
    requires i <= n && p < |bits| && After(bits, written, i)[p]
    ensures After(bits, written, n)[p]
    decreases n
  {
    if i < n { StaysMarked(bits, written, i, n - 1, p); }
  }

  /** A first allocation that fails uses a sector of no one's choosing: in use, not marked, or handed out again. */
  lemma {:induction false} StaleStart(bits: seq<bool>, start: int, written: nat -> bool, n: nat)
    requires n > 0 && !written(0)
    ensures !Fresh(bits, start, written, n)
  {
    var ps := Positions(bits, start, written, n);
    assert ps[0] == start;
    if 0 <= start < |bits| && !bits[start] && After(bits, written, n)[start] {
      MarkedIsHandedOut(bits, start, written, n, start);
      var i: nat :| i < n && written(i) && PosAt(bits, start, written, i) == start;
      assert ps[i] == ps[0];
    }
  }

  /** A first allocation that fails, on a device of three sectors of which the last is in use: it is used again. */
  lemma {:induction false} StaleStartExample()
    ensures var bits, written := [false, false, true], (i: nat) => i != 0;
      Positions(bits, 2, written, 2) == [2, 0] && bits[2] && !Fresh(bits, 2, written, 2)
  {
    var bits, written := [false, false, true], (i: nat) => i != 0;
    assert After(bits, written, 1) == After(bits, written, 0) == bits;
    assert PosAt(bits, 2, written, 0) == 2 && PosAt(bits, 2, written, 1) == 0;
    var ps := Positions(bits, 2, written, 2);
    assert ps[0] == 2 && ps[1] == 0;
  }

  // ---------------------------------------------------------------- write_sectors_to_disk

  /** What a run of write_sectors_to_disk starts from: the free map and the value of `position`; for each allocation,
      whether the free map is written and what that puts on the device; and the sectors where it puts anything, those of
      the free map file. */
  datatype Start = Start(bits: seq<bool>, position: int, written: nat -> bool,
                         put: nat -> map<int, seq<int>>, file: set<int>)

  ghost predicate Confined(s: Start) {
    forall i: nat :: Sized(s.put(i)) && s.put(i).Keys <= s.file
  }

  /** Two devices that differ in `file` at most. */
  ghost predicate Agree(a: seq<seq<int>>, b: seq<seq<int>>, file: set<int>) {
    |b| == |a| && forall p | 0 <= p < |a| && p !in file :: b[p] == a[p]
  }

  function Allocations(s: Start, n: nat): (ps: seq<int>)
    ensures |ps| == n
  {
    Positions(s.bits, s.position, s.written, n)
  }

  /** The free map and `position` after `n` allocations. */
  ghost predicate Ran(s: Start, n: nat, bits: seq<bool>, position: int) {
    && bits == After(s.bits, s.written, n)
    && position == if n == 0 then s.position else PosAt(s.bits, s.position, s.written, n - 1)
  }

  method Next(dev: Device, table: Table, position: int, s: Start, i: nat) returns (p: int)
    requires dev.Valid() && table.Valid() && Confined(s) && Ran(s, i, table.table.bits, position)
    modifies dev, table.table`bits, table.table.words
    ensures dev.Valid() && table.Valid() && Ran(s, i + 1, table.table.bits, p)
    ensures Agree(old(dev.blocks), dev.blocks, s.file)
    ensures forall n: nat | i < n :: p == Allocations(s, n)[i]
  {
    p := table.AllocateOne(dev, position, FileWrite(s.put(i), s.written(i)));
  }

  lemma {:induction false} RanNone(s: Start)
    ensures Ran(s, 0, s.bits, s.position)
  {
  }

  /** The data sectors named in the inode. */
  method WriteDirect(dev: Device, table: Table, total: nat, s: Start) returns (sectors: seq<int>, position: int, i: nat)
    requires dev.Valid() && table.Valid() && Confined(s) && table.table.bits == s.bits
    modifies dev, table.table`bits, table.table.words
    ensures dev.Valid() && table.Valid() && Agree(old(dev.blocks), dev.blocks, s.file)
    ensures i == (if total < DIRECT then total else DIRECT) && Ran(s, i, table.table.bits, position)
    ensures sectors == Direct(Allocations(s, total))
  {
    hide Ran, Allocations, Bitmap.Map.Valid, Direct;
    RanNone(s);
    ghost var ps := Allocations(s, total);
    sectors := seq(DIRECT, _ => 0);
    position := s.position;
    i := 0;
    while i < total && i < DIRECT
      invariant dev.Valid() && table.Valid() && Agree(old(dev.blocks), dev.blocks, s.file)
      invariant i <= total && i <= DIRECT && |sectors| == DIRECT && Ran(s, i, table.table.bits, position)
      invariant forall j | 0 <= j < DIRECT :: sectors[j] == if j < i then ps[j] else 0
    {
      position := Next(dev, table, position, s, i);
      sectors := sectors[i := position];
      i := i + 1;
    }
    assert sectors == Direct(ps);
  }

  /** The data sectors that a second-level block names: allocations `i` on, at most 128. */
  method FillSecond(dev: Device, table: Table, i: nat, total: nat, from: int, s: Start)
    returns (second: seq<int>, position: int, k: nat)
    requires dev.Valid() && table.Valid() && Confined(s) && i <= total && Ran(s, i, table.table.bits, from)
    modifies dev, table.table`bits, table.table.words
    ensures dev.Valid() && table.Valid() && Agree(old(dev.blocks), dev.blocks, s.file)
    ensures k == (if total - i < 128 then total - i else 128) && Ran(s, i + k, table.table.bits, position)
    ensures second == Window(Allocations(s, total), i)
  {
    hide Ran, Allocations, Bitmap.Map.Valid, Window;
    ghost var ps := Allocations(s, total);
    second := seq(WORDS, _ => 0);
    position := from;
    k := 0;
    while k < 128 && i + k < total
      invariant dev.Valid() && table.Valid() && Agree(old(dev.blocks), dev.blocks, s.file)
      invariant k <= 128 && i + k <= total && |second| == WORDS && Ran(s, i + k, table.table.bits, position)
      invariant forall j | 0 <= j < WORDS :: second[j] == if j < k then ps[i + j] else 0
    {
      position := Next(dev, table, position, s, i + k);
      second := second[k := position];
      k := k + 1;
    }
    assert second == Window(ps, i);
  }

  /** One second-level block: its own sector, then the data sectors it names, then the block is written. */
  method WriteGroup(dev: Device, table: Table, g: nat, total: nat, from: int, s: Start, ghost was: seq<seq<int>>)
    returns (block: int, position: int, i: nat)
    requires dev.Valid() && table.Valid() && GroupSlot(g) < total && Ran(s, GroupSlot(g), table.table.bits, from)
    requires Confined(s) && OnDevice(was, Allocations(s, total))
    requires Agree(WithGroups(was, Allocations(s, total), g), dev.blocks, s.file)
    modifies dev, table.table`bits, table.table.words
    ensures dev.Valid() && table.Valid() && i == (if GroupSlot(g + 1) < total then GroupSlot(g + 1) else total)
    ensures Ran(s, i, table.table.bits, position) && block == Allocations(s, total)[GroupSlot(g)]
    ensures Agree(WithGroups(was, Allocations(s, total), g + 1), dev.blocks, s.file)
  {
    hide Ran, Allocations, Bitmap.Map.Valid, Pack, Window, Confined;
    i := GroupSlot(g);
    block := Next(dev, table, from, s, i);
    i := i + 1;
    var second, last, k := FillSecond(dev, table, i, total, block, s);
    position := last;
    i := i + k;
    dev.Write(block, Pack(second));
  }

  /** The index blocks: allocation 124 and those after it. */
  method WriteIndex(dev: Device, table: Table, total: nat, from: int, s: Start, ghost was: seq<seq<int>>)
    returns (ib: int)
    requires dev.Valid() && table.Valid() && DIRECT < total <= MAX_BLOCKS && Ran(s, DIRECT, table.table.bits, from)
    requires Confined(s) && OnDevice(was, Allocations(s, total)) && Agree(was, dev.blocks, s.file)
    modifies dev, table.table`bits, table.table.words
    ensures dev.Valid() && table.Valid() && table.table.bits == After(s.bits, s.written, total)
    ensures ib == Allocations(s, total)[DIRECT] && Agree(Tree(was, Allocations(s, total)), dev.blocks, s.file)
  {
    hide Allocations, Bitmap.Map.Valid, Pack, FirstLevel, After, GroupSlot, Groups, Confined;
    ghost var ps := Allocations(s, total);
    var first := seq(WORDS, _ => 0);
    ib := Next(dev, table, from, s, DIRECT);
    var i := DIRECT + 1;
    var position := ib;
    var g := 0;
    GroupBounds(total, 0);
    while i < total
      invariant 0 <= g && i <= total && i == (if GroupSlot(g) < total then GroupSlot(g) else total) && |first| == WORDS
      invariant g > 0 ==> GroupSlot(g - 1) < total
      invariant dev.Valid() && table.Valid() && Ran(s, i, table.table.bits, position)
      invariant Agree(WithGroups(was, ps, g), dev.blocks, s.file)
      invariant forall j | 0 <= j < WORDS :: first[j] == if j < g then PointerAt(ps, GroupSlot(j)) else 0
      decreases total - i
    {
      GroupBounds(total, g);
      var block, last, next := WriteGroup(dev, table, g, total, position, s, was);
      first := first[g := block];
      position := last;
      i := next;
      g := g + 1;
    }
    GroupBounds(total, g);
    assert first == FirstLevel(ps);
    dev.Write(ib, Pack(first));
  }

  lemma {:induction false} GroupBounds(total: int, g: nat)
    ensures GroupSlot(g) < GroupSlot(g + 1) && GroupSlot(0) == DIRECT + 1
    ensures GroupSlot(g) < total <= MAX_BLOCKS ==> g < WORDS
    ensures GroupSlot(g) >= total && (g > 0 ==> GroupSlot(g - 1) < total) && total > DIRECT ==> g == Groups(total)
    ensures forall j: nat | j < g :: GroupSlot(j) < GroupSlot(g)
    ensures forall j: nat | j >= g :: GroupSlot(j) >= GroupSlot(g)
  {
  }

  lemma {:induction false} AllInRange(s: Start, n: nat)
    requires 0 <= s.position < |s.bits|
    ensures forall i | 0 <= i < n :: 0 <= Allocations(s, n)[i] < |s.bits|
  {
    forall i: nat | i < n ensures 0 <= Allocations(s, n)[i] < |s.bits| {
      PosInRange(s.bits, s.position, s.written, i);
    }
  }

  /** write_sectors_to_disk: but for the free map file, the device holds the index of the allocations. */
  method WriteSectors(dev: Device, table: Table, total: nat, s: Start) returns (sectors: seq<int>, ib: int)
    requires dev.Valid() && table.Valid() && Confined(s) && total <= MAX_BLOCKS && table.table.bits == s.bits
    requires |s.bits| == |dev.blocks| <= B32 && 0 <= s.position < |s.bits|
    modifies dev, table.table`bits, table.table.words
    ensures OnDevice(old(dev.blocks), Allocations(s, total))
    ensures dev.Valid() && table.Valid() && table.table.bits == After(s.bits, s.written, total)
    ensures sectors == Direct(Allocations(s, total)) && ib == PointerAt(Allocations(s, total), DIRECT)
    ensures Agree(Tree(old(dev.blocks), Allocations(s, total)), dev.blocks, s.file)
  {
    hide Allocations, Bitmap.Map.Valid, Direct, After, WithGroups, Confined, Formatted;
    ghost var was := dev.blocks;
    AllInRange(s, total);
    var direct, position, i := WriteDirect(dev, table, total, s);
    sectors, ib := direct, 0;
    if i < total {
      ib := WriteIndex(dev, table, total, position, s, was);
    }
  }

  /** inode_create; `memory` says whether the inode could be allocated. */
  method Create(dev: Device, table: Table, sector: int, length: int, memory: bool, s: Start) returns (ok: bool)
    requires dev.Valid() && table.Valid() && Confined(s) && table.table.bits == s.bits
    requires |s.bits| == |dev.blocks| <= B32 && 0 <= s.position < |s.bits|
    requires 0 <= sector < |s.bits| && 0 <= length < 0x8000_0000
    modifies dev, table.table`bits, table.table.words
    ensures dev.Valid() && table.Valid()
    ensures var total := TotalSectors(BytesToSectors(length));
      ok <==> memory && total <= MAX_BLOCKS && Count(old(table.table.bits), false) >= total + 1
    ensures !ok ==> dev.blocks == old(dev.blocks) && table.table.bits == old(table.table.bits)
    ensures ok ==>
      var ps := Allocations(s, TotalSectors(BytesToSectors(length)));
      && table.table.bits == After(s.bits, s.written, |ps|)
      && LaidOut(old(dev.blocks), ps, s.file, sector, length, dev.blocks)
  {
    hide Allocations, Bitmap.Map.Valid, Direct, After, Tree, Pack, Confined;
    if !memory {
      return false;
    }
    var total := TotalSectors(BytesToSectors(length));
    if total > MAX_BLOCKS {
      return false;
    }
    var unused := table.Unused();
    if unused < total + 1 {
      return false;
    }
    var sectors, ib := WriteSectors(dev, table, total, s);
    dev.Write(sector, Pack(InodeWords(OnDisk(sectors, ib, false, length, MAGIC))));
    return true;
  }

  /** The device that inode_create leaves: the index of the allocations `ps`, but for the sectors `file`, and the
      inode. */
  ghost predicate LaidOut(was: seq<seq<int>>, ps: seq<int>, file: set<int>, sector: int, length: int,
                          now: seq<seq<int>>)
  {
    && OnDevice(was, ps) && Formatted(now) && 0 <= sector < |was|
    && Agree(Tree(was, ps), now, file + {sector}) && now[sector] == Pack(InodeWords(Node(ps, length)))
  }

  // ---------------------------------------------------------------- the tree of a new inode

  /** The number of data sectors of a file. */
  function Length(d: OnDisk): int { BytesToSectors(d.length) }

  /** `p` is one of the index blocks through which the file's sectors are found. */
  ghost predicate IsIndex(blocks: seq<seq<int>>, d: OnDisk, p: int) {
    exists j :: DIRECT <= j < Length(d) && Readable(blocks, d, j) && (p == d.ib || p == Word(blocks[d.ib], GroupOf(j)))
  }

  /** Distinct sectors of the device, none an index block, stand for the file's logical sectors. */
  ghost predicate Usable(blocks: seq<seq<int>>, d: OnDisk) {
    && 0 <= d.length && Formatted(blocks) && (forall j | 0 <= j < Length(d) :: Readable(blocks, d, j))
    && (forall j | 0 <= j < Length(d) ::
          0 <= SectorAt(blocks, d, j) < |blocks| && !IsIndex(blocks, d, SectorAt(blocks, d, j)))
    && (forall j, k | 0 <= j < k < Length(d) :: SectorAt(blocks, d, j) != SectorAt(blocks, d, k))
  }

  /** A file as inode_create leaves it, when there was room and every write of the free map succeeded; the sectors of
      the
      free map and its file, and of the inode, were in use. */
  ghost predicate Created(was: seq<seq<int>>, s: Start, sector: int, length: int, now: seq<seq<int>>) {
    && 0 <= length < 0x8000_0000 && Formatted(was) && |was| == |s.bits| <= B32 && 0 <= sector < |was|
    && s.bits[0] && s.bits[sector] && (forall p | p in s.file && 0 <= p < |was| :: s.bits[p])
    && var total := TotalSectors(BytesToSectors(length));
    && total <= MAX_BLOCKS && Count(s.bits, false) >= total + 1 && AllWritten(s.written, total)
    && LaidOut(was, Allocations(s, total), s.file, sector, length, now)
  }

  lemma {:induction false} CreatedLaid(was: seq<seq<int>>, s: Start, sector: int, length: int, now: seq<seq<int>>)
    requires Created(was, s, sector, length, now)
    ensures var ps := Allocations(s, TotalSectors(BytesToSectors(length)));
      && Laid(was, ps, now) && Formatted(now) && |now| == |was| && Distinct(ps) && sector !in ps && 0 !in ps
      && FromBlock(now[sector]) == Node(ps, length)
      && (forall i | 0 <= i < |ps| :: !s.bits[ps[i]])
      && (forall i, j | 0 <= i < j < |ps| :: ps[i] < ps[j])
  {
    var total := TotalSectors(BytesToSectors(length));
    PositionsFresh(s.bits, s.position, s.written, total);
    var ps := Allocations(s, total);
    hide Positions, Pack, Tree, AllWritten, Laid, FromBlock, Direct, Formatted;
    var node := Node(ps, length);
    forall i | 0 <= i < DIRECT ensures IsWord(node.sectors[i]) { PointerWord(was, ps, i); }
    PointerWord(was, ps, DIRECT);
    InodeRoundTrip(node);
    TreeLaid(was, ps, s.file + {sector}, now);
  }

  /** byte_to_sector on a new inode: logical sectors in allocation order, and zero for a last one that got no sector. */
  lemma {:induction false} CreatedSector(was: seq<seq<int>>, s: Start, sector: int, length: int, now: seq<seq<int>>,
                                         j: int)
    requires Created(was, s, sector, length, now) && 0 <= j < BytesToSectors(length)
    ensures var n := BytesToSectors(length);
      var ps := Allocations(s, TotalSectors(n));
      && Readable(now, Node(ps, length), j)
      && (Slot(j) < |ps| <==> Even(n) || j < n - 1)
      && SectorAt(now, Node(ps, length), j) == (if Even(n) || j < n - 1 then ps[Slot(j)] else 0)
      && (j >= DIRECT ==>
            && |ps| > DIRECT && Node(ps, length).ib == ps[DIRECT]
            && GroupSlot(GroupOf(j)) < |ps| && Word(now[ps[DIRECT]], GroupOf(j)) == ps[GroupSlot(GroupOf(j))])
  {
    var n := BytesToSectors(length);
    var ps := Allocations(s, TotalSectors(n));
    CreatedLaid(was, s, sector, length, now);
    SlotCovered(n, j);
    GroupsFit(n);
    if j >= DIRECT { GroupSlotIn(|ps|, GroupOf(j)); }
    hide Allocations, Laid, Created;
    ReadBack(was, ps, now, length, j);
  }

  /** Every logical sector that got a sector got one that was free, and later ones got later ones. */
  lemma {:induction false} CreatedInOrder(was: seq<seq<int>>, s: Start, sector: int, length: int, now: seq<seq<int>>,
                                          j: int, k: int)
    requires Created(was, s, sector, length, now) && 0 <= j < k < BytesToSectors(length)
    requires Even(BytesToSectors(length)) || k < BytesToSectors(length) - 1
    ensures var d := Node(Allocations(s, TotalSectors(BytesToSectors(length))), length);
      && Readable(now, d, j) && Readable(now, d, k) && 0 <= SectorAt(now, d, j) < SectorAt(now, d, k) < |s.bits|
      && !s.bits[SectorAt(now, d, j)] && !s.bits[SectorAt(now, d, k)]
  {
    CreatedLaid(was, s, sector, length, now);
    CreatedSector(was, s, sector, length, now, j);
    CreatedSector(was, s, sector, length, now, k);
    CreatedRange(was, s, sector, length, now, j);
    CreatedRange(was, s, sector, length, now, k);
    SlotsApart(j, k, 0);
    assert |was| == |s.bits|;
    hide Allocations, Laid, Created, SectorAt, Readable, Node, Slot, GroupOf, GroupSlot, BytesToSectors, TotalSectors;
  }

  /** The sectors of a new file are sectors that were free (but for a last one that got none), distinct, and no index
      block. */
  lemma {:induction false} CreatedUsable(was: seq<seq<int>>, s: Start, sector: int, length: int, now: seq<seq<int>>)
    requires Created(was, s, sector, length, now)
    ensures FromBlock(now[sector]) == Node(Allocations(s, TotalSectors(BytesToSectors(length))), length)
    ensures Usable(now, FromBlock(now[sector]))
  {
    assert 0 <= length && 0 <= sector < |was|;
    CreatedLaid(was, s, sector, length, now);
    hide Allocations, Laid, Created, SectorAt, Readable, GroupOf, Word, FromBlock, BytesToSectors, TotalSectors;
    hide Distinct, IsIndex;
    var n := BytesToSectors(length);
    var d := Node(Allocations(s, TotalSectors(n)), length);
    forall j | 0 <= j < n ensures Readable(now, d, j) && 0 <= SectorAt(now, d, j) < |now| {
      CreatedRange(was, s, sector, length, now, j);
    }
    forall j | 0 <= j < n ensures !IsIndex(now, d, SectorAt(now, d, j)) {
      NoIndex(was, s, sector, length, now, j);
    }
    forall j, k | 0 <= j < k < n ensures SectorAt(now, d, j) != SectorAt(now, d, k) {
      SectorsDiffer(was, s, sector, length, now, j, k);
    }
  }

  lemma {:induction false} CreatedRange(was: seq<seq<int>>, s: Start, sector: int, length: int, now: seq<seq<int>>,
                                        j: int)
    requires Created(was, s, sector, length, now) && 0 <= j < BytesToSectors(length)
    ensures var d := Node(Allocations(s, TotalSectors(BytesToSectors(length))), length);
      Readable(now, d, j) && 0 <= SectorAt(now, d, j) < |was|
  {
    CreatedSector(was, s, sector, length, now, j);
    hide Allocations, SectorAt, Readable, Node, Slot, GroupOf, GroupSlot, BytesToSectors, TotalSectors, Tree, Pack;
    hide Even;
  }

  lemma {:induction false} SectorsDiffer(was: seq<seq<int>>, s: Start, sector: int, length: int, now: seq<seq<int>>,
                                         j: int, k: int)
    requires Created(was, s, sector, length, now) && 0 <= j < k < BytesToSectors(length)
    ensures var d := Node(Allocations(s, TotalSectors(BytesToSectors(length))), length);
      && Readable(now, d, j) && Readable(now, d, k) && SectorAt(now, d, j) != SectorAt(now, d, k)
  {
    CreatedLaid(was, s, sector, length, now);
    CreatedSector(was, s, sector, length, now, j);
    CreatedSector(was, s, sector, length, now, k);
    SlotsApart(j, k, 0);
    hide Allocations, Laid, Created, SectorAt, Readable, Node, Slot, GroupOf, GroupSlot, BytesToSectors, TotalSectors;
  }

  lemma {:induction false} NoIndex(was: seq<seq<int>>, s: Start, sector: int, length: int, now: seq<seq<int>>, j: int)
    requires Created(was, s, sector, length, now) && 0 <= j < BytesToSectors(length)
    ensures var d := Node(Allocations(s, TotalSectors(BytesToSectors(length))), length);
      Readable(now, d, j) && !IsIndex(now, d, SectorAt(now, d, j))
  {
    hide Allocations, Laid, Created, SectorAt, Word, BytesToSectors, TotalSectors;
    CreatedRange(was, s, sector, length, now, j);
    var d := Node(Allocations(s, TotalSectors(BytesToSectors(length))), length);
    forall k | DIRECT <= k < BytesToSectors(length) && Readable(now, d, k)
      ensures SectorAt(now, d, j) != d.ib && SectorAt(now, d, j) != Word(now[d.ib], GroupOf(k))
    {
      NotIndex(was, s, sector, length, now, j, k);
    }
  }

  lemma {:induction false} NotIndex(was: seq<seq<int>>, s: Start, sector: int, length: int, now: seq<seq<int>>, j: int,
                                    k: int)
    requires Created(was, s, sector, length, now) && 0 <= j < BytesToSectors(length)
    requires DIRECT <= k < BytesToSectors(length)
    ensures var d := Node(Allocations(s, TotalSectors(BytesToSectors(length))), length);
      && Readable(now, d, j) && Readable(now, d, k)
      && SectorAt(now, d, j) != d.ib && SectorAt(now, d, j) != Word(now[d.ib], GroupOf(k))
  {
    CreatedLaid(was, s, sector, length, now);
    CreatedSector(was, s, sector, length, now, j);
    CreatedSector(was, s, sector, length, now, k);
    SlotsApart(j, j + 1, GroupOf(k));
    hide Allocations, Laid, Created, SectorAt, Readable, Node, Slot, GroupOf, GroupSlot, BytesToSectors, TotalSectors;
    hide Word;
  }
}
