/**
 Reading and writing a file (filesys/inode.c): chunk by chunk, through the sector map, the device stands for one flat
 sequence of bytes. Whether the bounce buffer could be allocated is an input of each call.
 */
module InodeData {
  import opened Basics
  import opened Sectors
  import opened InodeTree

  // ---------------------------------------------------------------- flat contents

  /** The file's sectors, in order. */
  function FileMap(blocks: seq<seq<int>>, d: OnDisk): seq<int>
    requires forall j | 0 <= j < Length(d) :: Readable(blocks, d, j)
  {
    seq(if Length(d) < 0 then 0 else Length(d), j requires 0 <= j < Length(d) => SectorAt(blocks, d, j))
  }

  ghost predicate MapOk(blocks: seq<seq<int>>, m: seq<int>, length: int) {
    && Formatted(blocks) && 0 <= length <= SECTOR_SIZE * |m|
    && (forall j | 0 <= j < |m| :: 0 <= m[j] < |blocks|)
    && (forall j, k | 0 <= j < k < |m| :: m[j] != m[k])
  }

  function FlatAt(blocks: seq<seq<int>>, m: seq<int>, length: int, i: int): int
    requires MapOk(blocks, m, length) && 0 <= i < length
  {
    blocks[m[SectorNo(i)]][SectorOfs(i)]
  }

  /** The bytes of the file. */
  function Flat(blocks: seq<seq<int>>, m: seq<int>, length: int): (f: seq<int>)
    requires MapOk(blocks, m, length)
    ensures |f| == length
  {
    seq(length, i requires 0 <= i < length => FlatAt(blocks, m, length, i))
  }

  /** Bytes of one sector are consecutive bytes of the file. */
  lemma {:induction false} ReadChunk(blocks: seq<seq<int>>, m: seq<int>, length: int, at: int, n: int)
    requires MapOk(blocks, m, length) && 0 <= at && 0 < n && at + n <= length && SectorOfs(at) + n <= SECTOR_SIZE
    ensures SectorNo(at) < |m|
    ensures blocks[m[SectorNo(at)]][SectorOfs(at)..SectorOfs(at) + n] == Flat(blocks, m, length)[at..at + n]
  {
    var f := Flat(blocks, m, length);
    var a, b := blocks[m[SectorNo(at)]][SectorOfs(at)..SectorOfs(at) + n], f[at..at + n];
    forall i | 0 <= i < n ensures a[i] == b[i] {
      assert SectorNo(at + i) == SectorNo(at) && SectorOfs(at + i) == SectorOfs(at) + i;
      assert f[at + i] == FlatAt(blocks, m, length, at + i);
    }
  }

  /** Writing one sector overwrites consecutive bytes of the file and no others. */
  lemma {:induction false} WriteChunk(blocks: seq<seq<int>>, m: seq<int>, length: int, at: int, data: seq<int>)
    requires MapOk(blocks, m, length) && 0 <= at && 0 < |data| && at + |data| <= length
    requires SectorOfs(at) + |data| <= SECTOR_SIZE
    ensures SectorNo(at) < |m|
    ensures var p := m[SectorNo(at)];
      var now := blocks[p := Overwrite(blocks[p], SectorOfs(at), data)];
      MapOk(now, m, length) && Flat(now, m, length) == Overwrite(Flat(blocks, m, length), at, data)
  {
    var j, o := SectorNo(at), SectorOfs(at);
    var p := m[j];
    var now := blocks[p := Overwrite(blocks[p], o, data)];
    forall i | 0 <= i < length ensures Flat(now, m, length)[i] == Overwrite(Flat(blocks, m, length), at, data)[i] {
      assert Flat(now, m, length)[i] == FlatAt(now, m, length, i)
          && Flat(blocks, m, length)[i] == FlatAt(blocks, m, length, i);
      WriteChunkAt(blocks, m, length, at, data, i);
    }
  }

  lemma {:induction false} WriteChunkAt(blocks: seq<seq<int>>, m: seq<int>, length: int, at: int, data: seq<int>,
                                        i: int)
    requires MapOk(blocks, m, length) && 0 <= at && 0 < |data| && at + |data| <= length
    requires SectorOfs(at) + |data| <= SECTOR_SIZE
    requires 0 <= i < length
    ensures SectorNo(at) < |m|
    ensures var p := m[SectorNo(at)];
      var now := blocks[p := Overwrite(blocks[p], SectorOfs(at), data)];
      && MapOk(now, m, length)
      && FlatAt(now, m, length, i) == if at <= i < at + |data| then data[i - at] else FlatAt(blocks, m, length, i)
  {
    var j, o := SectorNo(at), SectorOfs(at);
    if SectorNo(i) == j {
      assert i - at == SectorOfs(i) - o;
    } else {
      assert m[SectorNo(i)] != m[j];
    }
  }

  // ---------------------------------------------------------------- the map does not move

  lemma {:induction false} UsableMap(blocks: seq<seq<int>>, d: OnDisk)
    requires Usable(blocks, d)
    ensures MapOk(blocks, FileMap(blocks, d), d.length)
  {
    hide SectorAt, Readable, IsIndex;
  }

  /** A device that has the same index blocks has the same map. */
  lemma {:induction false} SameSector(blocks: seq<seq<int>>, now: seq<seq<int>>, d: OnDisk, j: int)
    requires Usable(blocks, d) && Formatted(now) && |now| == |blocks| && 0 <= j < Length(d)
    requires forall p | 0 <= p < |blocks| && IsIndex(blocks, d, p) :: now[p] == blocks[p]
    ensures Readable(now, d, j) && SectorAt(now, d, j) == SectorAt(blocks, d, j)
    ensures j >= DIRECT ==> Word(now[d.ib], GroupOf(j)) == Word(blocks[d.ib], GroupOf(j))
  {
    assert Readable(blocks, d, j);
    if j >= DIRECT {
      var q := Word(blocks[d.ib], GroupOf(j));
      assert IsIndex(blocks, d, d.ib) && IsIndex(blocks, d, q);
    }
  }

  lemma {:induction false} SameIndex(blocks: seq<seq<int>>, now: seq<seq<int>>, d: OnDisk)
    requires Usable(blocks, d) && Formatted(now) && |now| == |blocks|
    requires forall p | 0 <= p < |blocks| && IsIndex(blocks, d, p) :: now[p] == blocks[p]
    ensures Usable(now, d) && FileMap(now, d) == FileMap(blocks, d)
    ensures forall p | IsIndex(now, d, p) :: IsIndex(blocks, d, p)
  {
    forall j | 0 <= j < Length(d) ensures Readable(now, d, j) && SectorAt(now, d, j) == SectorAt(blocks, d, j) {
      SameSector(blocks, now, d, j);
    }
    forall p | IsIndex(now, d, p) ensures IsIndex(blocks, d, p) {
      var j :| DIRECT <= j < Length(d) && Readable(now, d, j) && (p == d.ib || p == Word(now[d.ib], GroupOf(j)));
      SameSector(blocks, now, d, j);
      assert Readable(blocks, d, j);
    }
    hide SectorAt, Readable, IsIndex;
  }

  /** So has one that differs only in the file's own sectors. */
  lemma {:induction false} SameMap(blocks: seq<seq<int>>, now: seq<seq<int>>, d: OnDisk)
    requires Usable(blocks, d) && Formatted(now) && |now| == |blocks|
    requires forall p | 0 <= p < |blocks| && p !in FileMap(blocks, d) :: now[p] == blocks[p]
    ensures Usable(now, d) && FileMap(now, d) == FileMap(blocks, d)
  {
    hide SectorAt, Readable, IsIndex;
    SameIndex(blocks, now, d);
  }

  // ---------------------------------------------------------------- inode_read_at, inode_write_at

  /** The bytes of the request that lie in the file. */
  function InFile(length: int, size: int, offset: int): int {
    if size <= 0 || offset >= length then 0 else if size < length - offset then size else length - offset
  }

  /** How many bytes a call moves: all that lie in the file, or, without a bounce buffer, the whole sectors it starts
      with. */
  function Transferred(length: int, size: int, offset: int, memory: bool): int {
    var n := InFile(length, size, offset);
    if memory then n else if offset % SECTOR_SIZE != 0 then 0 else n / SECTOR_SIZE * SECTOR_SIZE
  }

  /** What a call that asks for `size` bytes from `offset` on is to move: all of them, or all up to the end of the file.
      Without a bounce buffer it goes by whole sectors, and stops only before a chunk that is not one. */
  ghost predicate Complete(length: int, size: int, offset: int, memory: bool, done: int) {
    && 0 <= done && (done > 0 ==> done <= size && offset + done <= length)
    && (memory ==> size <= 0 || done == size || offset + done >= length)
    && (!memory ==>
          && done % SECTOR_SIZE == 0 && (done > 0 ==> offset % SECTOR_SIZE == 0)
          && (size <= 0 || (offset + done) % SECTOR_SIZE != 0
              || size - done < SECTOR_SIZE || length - (offset + done) < SECTOR_SIZE))
  }

  /** That is what the two functions move, and there is only one such number. */
  lemma {:induction false} TransferredIs(length: int, size: int, offset: int, memory: bool, done: int)
    requires 0 <= length && 0 <= offset
    ensures done == Transferred(length, size, offset, memory) <==> Complete(length, size, offset, memory, done)
  {
    hide Complete, Transferred;
    if memory { WithBuffer(length, size, offset, done); } else { WithoutBuffer(length, size, offset, done); }
  }

  lemma {:induction false} WithBuffer(length: int, size: int, offset: int, done: int)
    requires 0 <= length && 0 <= offset
    ensures done == Transferred(length, size, offset, true) <==> Complete(length, size, offset, true, done)
  {
  }

  lemma {:induction false} WithoutBuffer(length: int, size: int, offset: int, done: int)
    requires 0 <= length && 0 <= offset
    ensures done == Transferred(length, size, offset, false) <==> Complete(length, size, offset, false, done)
  {
    var n := InFile(length, size, offset);
    if offset % SECTOR_SIZE == 0 {
      WholePart(n, done);
      if done % SECTOR_SIZE == 0 { SumAligned(offset, done); }
    }
  }

  /** The multiple of the sector size that leaves less than a sector of `n`. */
  lemma {:induction false} WholePart(n: int, done: int)
    requires 0 <= n
    ensures done == n / SECTOR_SIZE * SECTOR_SIZE <==> done % SECTOR_SIZE == 0 && done <= n < done + SECTOR_SIZE
  {
    if done % SECTOR_SIZE == 0 && done <= n < done + SECTOR_SIZE { LastAligned(n, done); }
  }

  /** chunk_size. */
  function Chunk(length: int, size: int, offset: int): int {
    var inodeLeft := length - offset;
    var sectorLeft := SECTOR_SIZE - offset % SECTOR_SIZE;
    var minLeft := if inodeLeft < sectorLeft then inodeLeft else sectorLeft;
    if size < minLeft then size else minLeft
  }

  /** What both loops keep: whole chunks are done, all of them whole sectors if there is no bounce buffer. */
  ghost predicate Progress(length: int, size: int, offset: int, memory: bool, done: int) {
    && 0 <= done <= InFile(length, size, offset)
    && (done == 0 || done == InFile(length, size, offset) || (offset + done) % SECTOR_SIZE == 0)
    && (!memory ==> done % SECTOR_SIZE == 0 && (done > 0 ==> offset % SECTOR_SIZE == 0))
  }

  predicate Whole(at: int, n: int) {
    at % SECTOR_SIZE == 0 && n == SECTOR_SIZE
  }

  lemma {:induction false} ChunkIs(length: int, size: int, offset: int, done: int)
    requires 0 <= offset && 0 <= done <= InFile(length, size, offset)
    ensures var n, left := Chunk(length, size - done, offset + done), InFile(length, size, offset) - done;
      && (size - done > 0 && n > 0 <==> left > 0)
      && (left > 0 ==>
            var room := SECTOR_SIZE - (offset + done) % SECTOR_SIZE;
            n == if left < room then left else room)
  {
  }

  /** A chunk stays in its sector and in the file; the loop goes on after it, or ends with all that can be moved. */
  lemma {:induction false} NextChunk(length: int, size: int, offset: int, memory: bool, done: int)
    requires 0 <= offset && Progress(length, size, offset, memory, done)
    ensures var n := Chunk(length, size - done, offset + done);
      && (size - done <= 0 || n <= 0 ==> done == Transferred(length, size, offset, memory))
      && (size - done > 0 && n > 0 ==>
            && offset + done + n <= length && done + n <= size && SectorOfs(offset + done) + n <= SECTOR_SIZE
            && (memory || Whole(offset + done, n) ==> Progress(length, size, offset, memory, done + n))
            && (!memory && !Whole(offset + done, n) ==> done == Transferred(length, size, offset, memory)))
  {
    ChunkIs(length, size, offset, done);
    hide Chunk;
    var all := InFile(length, size, offset);
    var n := Chunk(length, size - done, offset + done);
    if done == all {
      WholeSectors(offset, all, done, memory);
    } else if !memory {
      if done == 0 || (offset + done) % SECTOR_SIZE == 0 { OneMore(offset, all, done, n); }
    }
  }

  lemma {:induction false} WholeSectors(offset: int, all: int, done: int, memory: bool)
    requires 0 <= offset && 0 <= done <= all && all - done < SECTOR_SIZE
    requires !memory ==> done % SECTOR_SIZE == 0 && (done > 0 ==> offset % SECTOR_SIZE == 0)
    ensures !memory && offset % SECTOR_SIZE == 0 ==> done == all / SECTOR_SIZE * SECTOR_SIZE
    ensures !memory && offset % SECTOR_SIZE != 0 ==> done == 0
  {
  }

  lemma {:induction false} OneMore(offset: int, all: int, done: int, n: int)
    requires 0 <= offset && 0 <= done < all && done % SECTOR_SIZE == 0 && (done > 0 ==> offset % SECTOR_SIZE == 0)
    requires var left := SECTOR_SIZE - (offset + done) % SECTOR_SIZE;
      n == if all - done < left then all - done else left
    ensures Whole(offset + done, n) ==>
      (done + n) % SECTOR_SIZE == 0 && offset % SECTOR_SIZE == 0 && (offset + done + n) % SECTOR_SIZE == 0
    ensures !Whole(offset + done, n) && offset % SECTOR_SIZE == 0 ==> done == all / SECTOR_SIZE * SECTOR_SIZE
    ensures !Whole(offset + done, n) && offset % SECTOR_SIZE != 0 ==> done == 0
  {
    SumAligned(offset, done);
    if Whole(offset + done, n) {
      SumAligned(n, done);
      SumAligned(n, offset + done);
    } else if offset % SECTOR_SIZE == 0 {
      LastAligned(all, done);
    }
  }

  lemma {:induction false} SumAligned(a: int, b: int)
    requires b % SECTOR_SIZE == 0
    ensures (a + b) % SECTOR_SIZE == (b + a) % SECTOR_SIZE == a % SECTOR_SIZE
  {
  }

  lemma {:induction false} LastAligned(all: int, done: int)
    requires done % SECTOR_SIZE == 0 && done <= all < done + SECTOR_SIZE
    ensures all / SECTOR_SIZE * SECTOR_SIZE == done
  {
  }

  /** One chunk written: directly, or through the bounce buffer with the rest of its sector. */
  method PutChunk(dev: Device, sector: int, at: int, data: seq<int>)
    requires dev.Valid() && 0 <= sector < |dev.blocks| && 0 < |data| && 0 <= at && SectorOfs(at) + |data| <= SECTOR_SIZE
    modifies dev
    ensures dev.Valid()
    ensures dev.blocks == old(dev.blocks)[sector := Overwrite(old(dev.blocks)[sector], SectorOfs(at), data)]
  {
    var ofs := SectorOfs(at);
    if Whole(at, |data|) {
      assert data == Overwrite(dev.blocks[sector], 0, data);
      dev.Write(sector, data);
    } else {
      var bounce: seq<int>;
      if ofs > 0 || |data| < SECTOR_SIZE - ofs {
        bounce := dev.Read(sector);
      } else {
        bounce := seq(SECTOR_SIZE, _ => 0);
      }
      dev.Write(sector, Overwrite(bounce, ofs, data));
    }
  }

  /** Sectors that are not the file's are as they were. */
  ghost predicate SameElsewhere(was: seq<seq<int>>, now: seq<seq<int>>, m: seq<int>) {
    |now| == |was| && Formatted(now) && forall p | 0 <= p < |was| && p !in m :: now[p] == was[p]
  }

  /** The device after `data` was written at `at`: the file's bytes are overwritten there, and no other sector
      changed. */
  ghost predicate Wrote(was: seq<seq<int>>, now: seq<seq<int>>, d: OnDisk, at: int, data: seq<int>) {
    && Usable(was, d) && Usable(now, d) && FileMap(now, d) == FileMap(was, d)
    && SameElsewhere(was, now, FileMap(was, d))
    && MapOk(was, FileMap(was, d), d.length) && MapOk(now, FileMap(was, d), d.length)
    && 0 <= at && (data != [] ==> at + |data| <= d.length)
    && Flat(now, FileMap(was, d), d.length) ==
       if data == [] then Flat(was, FileMap(was, d), d.length)
       else Overwrite(Flat(was, FileMap(was, d), d.length), at, data)
  }

  /** The sector that byte_to_sector names for a byte of the file. */
  lemma {:induction false} SectorIs(blocks: seq<seq<int>>, d: OnDisk, pos: int)
    requires Usable(blocks, d) && 0 <= pos < d.length
    ensures Readable(blocks, d, SectorNo(pos)) && SectorNo(pos) < |FileMap(blocks, d)|
    ensures ByteToSector(blocks, d, pos) == FileMap(blocks, d)[SectorNo(pos)]
  {
    hide SectorAt, Readable, IsIndex;
    SectorBelow(pos, d.length);
    hide SectorNo, BytesToSectors;
  }

  lemma {:induction false} SectorBelow(pos: int, length: int)
    requires 0 <= pos < length
    ensures 0 <= SectorNo(pos) < BytesToSectors(length)
  {
  }

  /** Where one more chunk goes after what was already written. */
  lemma {:induction false} ChunkPlace(was: seq<seq<int>>, now: seq<seq<int>>, d: OnDisk, offset: int, data: seq<int>)
    requires Wrote(was, now, d, offset, data) && offset + |data| < d.length
    ensures var at := offset + |data|;
      && Readable(now, d, SectorNo(at)) && 0 <= ByteToSector(now, d, at) < |now| && Formatted(now)
      && SectorNo(at) < |FileMap(was, d)| && ByteToSector(now, d, at) == FileMap(was, d)[SectorNo(at)]
  {
    hide Flat, FileMap, Overwrite, Usable, Readable, ByteToSector, MapOk, SectorNo;
    SectorIs(now, d, offset + |data|);
    MapIn(now, d, SectorNo(offset + |data|));
  }

  lemma {:induction false} MapIn(blocks: seq<seq<int>>, d: OnDisk, j: int)
    requires Usable(blocks, d) && 0 <= j < |FileMap(blocks, d)|
    ensures Formatted(blocks) && 0 <= FileMap(blocks, d)[j] < |blocks|
  {
    hide IsIndex, Readable, SectorAt;
  }

  /** One more chunk after what was already written. */
  lemma {:induction false} WroteMore(was: seq<seq<int>>, now: seq<seq<int>>, d: OnDisk, offset: int, data: seq<int>,
                                     more: seq<int>, p: int)
    requires 0 <= p < |now| && |now[p]| == SECTOR_SIZE && more != []
    requires 0 <= offset && SectorOfs(offset + |data|) + |more| <= SECTOR_SIZE
    requires offset + |data| + |more| <= d.length
    requires Wrote(was, now, d, offset, data) && InMap(FileMap(was, d), SectorNo(offset + |data|), p)
    ensures var next := now[p := Overwrite(now[p], SectorOfs(offset + |data|), more)];
      Wrote(was, next, d, offset, data + more)
  {
    hide Flat, FileMap, Overwrite, Usable, SectorNo, SectorOfs, MapOk;
    var at := offset + |data|;
    AllReadable(was, d);
    var m := FileMap(was, d);
    WriteChunk(now, m, d.length, at, more);
    var next := now[p := Overwrite(now[p], SectorOfs(at), more)];
    SameElsewhereMore(was, now, m, p, next);
    SameMap(was, next, d);
    OverwriteTwice(Flat(was, m, d.length), offset, data, more);
  }

  lemma {:induction false} AllReadable(blocks: seq<seq<int>>, d: OnDisk)
    requires Usable(blocks, d)
    ensures forall j | 0 <= j < Length(d) :: Readable(blocks, d, j)
  {
  }

  ghost predicate InMap(m: seq<int>, j: int, p: int) {
    0 <= j < |m| && m[j] == p
  }

  lemma {:induction false} SameElsewhereMore(was: seq<seq<int>>, now: seq<seq<int>>, m: seq<int>, p: int,
                                             next: seq<seq<int>>)
    requires SameElsewhere(was, now, m) && p in m && |next| == |now| && Formatted(next)
    requires forall q | 0 <= q < |now| && q != p :: next[q] == now[q]
    ensures SameElsewhere(was, next, m)
  {
  }

  lemma {:induction false} OverwriteTwice(f: seq<int>, at: int, a: seq<int>, b: seq<int>)
    requires 0 <= at && at + |a| + |b| <= |f|
    ensures Overwrite(Overwrite(f, at, a), at + |a|, b) == Overwrite(f, at, a + b)
    ensures a == [] ==> Overwrite(f, at + |a|, b) == Overwrite(f, at, a + b)
  {
  }

  lemma {:induction false} WroteNothing(blocks: seq<seq<int>>, d: OnDisk, offset: int)
    requires Usable(blocks, d) && 0 <= offset
    ensures Wrote(blocks, blocks, d, offset, [])
  {
    UsableMap(blocks, d);
    hide SectorAt, Readable, IsIndex, Flat;
  }

  /** inode_write_at: the file's bytes from `offset` on become the buffer's; nothing else on the device changes. */
  method WriteAt(dev: Device, d: OnDisk, denyCnt: int, buffer: seq<int>, size: int, offset: int, memory: bool)
    returns (done: int)
    requires Usable(dev.blocks, d) && size <= |buffer| && 0 <= offset
    modifies dev
    ensures done == if denyCnt != 0 then 0 else Transferred(d.length, size, offset, memory)
    ensures denyCnt == 0 ==> Complete(d.length, size, offset, memory, done)
    ensures 0 <= done <= |buffer| && Wrote(old(dev.blocks), dev.blocks, d, offset, buffer[..done])
  {
    hide Usable, Wrote, Transferred, Complete, Readable, ByteToSector, Overwrite, Chunk, Progress, Whole, FileMap;
    done := 0;
    WroteNothing(dev.blocks, d, offset);
    assert buffer[..0] == [];
    if denyCnt != 0 {
      return;
    }
    NotNegative(dev.blocks, d);
    forall n ensures n == Transferred(d.length, size, offset, memory) ==> Complete(d.length, size, offset, memory, n) {
      TransferredIs(d.length, size, offset, memory, n);
    }
    assert Progress(d.length, size, offset, memory, 0) by { StartsHere(d.length, size, offset, memory); }
    while size - done > 0
      invariant 0 <= done <= |buffer| && Progress(d.length, size, offset, memory, done)
      invariant Wrote(old(dev.blocks), dev.blocks, d, offset, buffer[..done])
    {
      NextChunk(d.length, size, offset, memory, done);
      var at := offset + done;
      var n := Chunk(d.length, size - done, at);
      if n <= 0 {
        return;
      }
      if !Whole(at, n) && !memory {
        return;
      }
      ghost var was, data := dev.blocks, buffer[done..done + n];
      ChunkPlace(old(dev.blocks), was, d, offset, buffer[..done]);
      var sector := ByteToSector(dev.blocks, d, at);
      WroteMore(old(dev.blocks), was, d, offset, buffer[..done], data, sector);
      PutChunk(dev, sector, at, buffer[done..done + n]);
      assert buffer[..done] + data == buffer[..done + n];
      done := done + n;
    }
    NextChunk(d.length, size, offset, memory, done);
  }

  lemma {:induction false} NotNegative(blocks: seq<seq<int>>, d: OnDisk)
    requires Usable(blocks, d)
    ensures 0 <= d.length
  {
  }

  lemma {:induction false} StartsHere(length: int, size: int, offset: int, memory: bool)
    requires 0 <= offset
    ensures Progress(length, size, offset, memory, 0)
  {
  }

  ghost function Contents(blocks: seq<seq<int>>, d: OnDisk): (f: seq<int>)
    requires Usable(blocks, d)
    ensures |f| == d.length
  {
    UsableMap(blocks, d);
    Flat(blocks, FileMap(blocks, d), d.length)
  }

  method GetChunk(dev: Device, sector: int, ofs: int, buffer: array<int>, done: int, n: int)
    requires dev.Valid() && 0 <= sector < |dev.blocks| && 0 <= ofs && 0 <= n && ofs + n <= SECTOR_SIZE && 0 <= done
    requires done + n <= buffer.Length
    modifies buffer
    ensures buffer[..] == Overwrite(old(buffer[..]), done, dev.blocks[sector][ofs..ofs + n])
  {
    var bounce := dev.Read(sector);
    forall i | 0 <= i < n {
      buffer[done + i] := bounce[ofs + i];
    }
  }

  /** The buffer begins with `done` bytes of `f` from `offset` on; past them it is as it was. */
  ghost predicate HasRead(f: seq<int>, offset: int, done: int, was: seq<int>, now: seq<int>) {
    && |now| == |was| && 0 <= offset && 0 <= done <= |now| && now[done..] == was[done..]
    && (done > 0 ==> offset + done <= |f| && now[..done] == f[offset..offset + done])
  }

  lemma {:induction false} ReadMore(f: seq<int>, offset: int, done: int, n: int, was: seq<int>, now: seq<int>,
                                    next: seq<int>)
    requires HasRead(f, offset, done, was, now) && 0 < n && done + n <= |now| && offset + done + n <= |f|
    requires next == Overwrite(now, done, f[offset + done..offset + done + n])
    ensures HasRead(f, offset, done + n, was, next)
  {
    var a, b := next[..done + n], f[offset..offset + done + n];
    forall i | 0 <= i < done + n ensures a[i] == b[i] {
      if i < done { assert now[..done][i] == f[offset..offset + done][i]; }
    }
    forall i | done + n <= i < |next|
      ensures next[i] == was[i]
    {
      assert now[done..][i - done] == was[done..][i - done];
    }
  }

  /** A chunk of the file is copied to the buffer. */
  method GetFileChunk(dev: Device, d: OnDisk, buffer: array<int>, done: int, at: int, n: int)
    requires Usable(dev.blocks, d) && 0 <= at && 0 < n && at + n <= d.length && SectorOfs(at) + n <= SECTOR_SIZE
    requires 0 <= done && done + n <= buffer.Length
    modifies buffer
    ensures buffer[..] == Overwrite(old(buffer[..]), done, Contents(dev.blocks, d)[at..at + n])
  {
    UsableMap(dev.blocks, d);
    hide Usable, Readable, ByteToSector, FileMap, Flat;
    SectorIs(dev.blocks, d, at);
    ReadChunk(dev.blocks, FileMap(dev.blocks, d), d.length, at, n);
    var sector := ByteToSector(dev.blocks, d, at);
    GetChunk(dev, sector, SectorOfs(at), buffer, done, n);
  }

  /** inode_read_at: the buffer begins with the file's bytes from `offset` on. */
  method ReadAt(dev: Device, d: OnDisk, buffer: array<int>, size: int, offset: int, memory: bool) returns (done: int)
    requires Usable(dev.blocks, d) && size <= buffer.Length && 0 <= offset
    modifies buffer
    ensures done == Transferred(d.length, size, offset, memory) && Complete(d.length, size, offset, memory, done)
    ensures HasRead(Contents(dev.blocks, d), offset, done, old(buffer[..]), buffer[..])
  {
    hide Usable, Transferred, Complete, Overwrite, Chunk, Progress, Whole, Contents, HasRead;
    done := 0;
    ghost var f, was := Contents(dev.blocks, d), buffer[..];
    forall n ensures n == Transferred(d.length, size, offset, memory) ==> Complete(d.length, size, offset, memory, n) {
      TransferredIs(d.length, size, offset, memory, n);
    }
    NothingRead(f, offset, was);
    StartsHere(d.length, size, offset, memory);
    while size - done > 0
      invariant 0 <= done <= buffer.Length && Progress(d.length, size, offset, memory, done)
      invariant HasRead(f, offset, done, was, buffer[..])
    {
      NextChunk(d.length, size, offset, memory, done);
      var at := offset + done;
      var n := Chunk(d.length, size - done, at);
      if n <= 0 {
        return;
      }
      if !Whole(at, n) && !memory {
        return;
      }
      ghost var now := buffer[..];
      GetFileChunk(dev, d, buffer, done, at, n);
      ReadMore(f, offset, done, n, was, now, buffer[..]);
      done := done + n;
    }
    NextChunk(d.length, size, offset, memory, done);
  }

  lemma {:induction false} NothingRead(f: seq<int>, offset: int, was: seq<int>)
    requires 0 <= offset
    ensures HasRead(f, offset, 0, was, was)
  {
  }

  /** What was written is what is read back, and the rest of the file is as it was. */
  lemma {:induction false} WriteThenRead(was: seq<seq<int>>, now: seq<seq<int>>, d: OnDisk, offset: int, data: seq<int>)
    requires Wrote(was, now, d, offset, data)
    ensures data != [] ==> Contents(now, d)[offset..offset + |data|] == data
    ensures forall i | 0 <= i < d.length && !(offset <= i < offset + |data|) ::
      Contents(now, d)[i] == Contents(was, d)[i]
  {
    hide Usable, Flat, FileMap;
  }
}
