/**
 The free map on its device (bitmap_write and bitmap_read of lib/kernel/bitmap.c, filesys/free-bm.c): the words of the
 bitmap are the first bytes of the free map file. What `FreeMap` takes as an input, this module makes happen.
 */
module FreeMapFile {
  import opened Basics
  import opened Words
  import opened Bitmap
  import opened Sectors
  import opened FreeMap
  import opened InodeTree
  import opened InodeData

  ghost predicate ByteValues(f: seq<int>) {
    forall i | 0 <= i < |f| :: 0 <= f[i] < 256
  }

  /** Word `k` of a file. */
  function FileWord(f: seq<int>, k: nat): (w: nat)
    requires 4 * k + 4 <= |f| && ByteValues(f)
    ensures w < B32
  {
    Word(f, k)
  }

  lemma {:induction false} ElemIn(n: nat, i: nat)
    requires i < n
    ensures 4 * Elem(i) + 4 <= 4 * ElemCnt(n)
  {
  }

  /** Bit `i` of the bitmap of `n` bits that a file holds. */
  predicate BitIn(f: seq<int>, n: nat, i: nat)
    requires 4 * ElemCnt(n) <= |f| && ByteValues(f) && i < n
  {
    ElemIn(n, i);
    BitOf(FileWord(f, Elem(i)), Offset(i))
  }

  /** The file holds the bitmap `bits`. */
  ghost predicate HeldIn(f: seq<int>, bits: seq<bool>) {
    4 * ElemCnt(|bits|) <= |f| && ByteValues(f) && forall i: nat | i < |bits| :: bits[i] == BitIn(f, |bits|, i)
  }

  lemma {:induction false} PackIsBytes(words: seq<int>)
    ensures ByteValues(Pack(words))
  {
    var b := Pack(words);
    forall i | 0 <= i < |b| ensures 0 <= b[i] < 256 { assert b[i] == PackAt(words, i); }
  }

  /** A file that begins with the words of a bitmap holds the bitmap. */
  lemma {:induction false} ImageHolds(bm: Map, f: seq<int>)
    requires bm.Valid() && ByteValues(f) && 4 * bm.words.Length <= |f|
    requires f[..4 * bm.words.Length] == Pack(bm.words[..])
    ensures HeldIn(f, bm.bits)
  {
    Pow2At31();
    hide Pack, Word, BitOf, Pow2;
    var ws := bm.words[..];
    forall i: nat | i < bm.bitCnt ensures bm.bits[i] == BitIn(f, bm.bitCnt, i) {
      ElemIn(bm.bitCnt, i);
      PackWord(ws, Elem(i));
      SameWord(f, Pack(ws), Elem(i));
    }
  }

  lemma {:induction false} SameWord(f: seq<int>, b: seq<int>, k: nat)
    requires 4 * k + 4 <= |b| <= |f| && f[..|b|] == b
    ensures Word(f, k) == Word(b, k)
  {
    forall i | 0 <= i < |b| ensures f[i] == b[i] { assert f[..|b|][i] == f[i]; }
  }

  // ---------------------------------------------------------------- bitmap_write

  /** Whether the call gets to write, or read, all of the bitmap. */
  ghost predicate AllMoved(bm: Map, d: OnDisk, memory: bool) {
    Transferred(d.length, 4 * bm.words.Length, 0, memory) == 4 * bm.words.Length
  }

  /** bitmap_write: if it succeeds the file holds the bitmap; it changes sectors of the file only. */
  method Store(dev: Device, d: OnDisk, bm: Map, denyCnt: int, memory: bool) returns (ok: bool)
    requires bm.Valid() && Usable(dev.blocks, d) && ByteValues(Contents(dev.blocks, d))
    modifies dev
    ensures Usable(dev.blocks, d) && FileMap(dev.blocks, d) == FileMap(old(dev.blocks), d)
    ensures SameElsewhere(old(dev.blocks), dev.blocks, FileMap(old(dev.blocks), d))
    ensures ByteValues(Contents(dev.blocks, d))
    ensures ok <==> bm.words.Length == 0 || (denyCnt == 0 && AllMoved(bm, d, memory))
    ensures ok ==> HeldIn(Contents(dev.blocks, d), bm.bits)
  {
    ghost var was := dev.blocks;
    var data := Pack(bm.words[..]);
    PackIsBytes(bm.words[..]);
    var n := WriteAt(dev, d, denyCnt, data, |data|, 0, memory);
    ok := n == |data|;
    Stored(was, dev.blocks, d, data[..n]);
    hide Usable, FileMap, Contents, Wrote, Flat, Pack, Transferred, Bitmap.Map.Valid;
    if ok {
      assert data[..n] == data;
      ImageHolds(bm, Contents(dev.blocks, d));
    }
  }

  lemma {:induction false} Stored(was: seq<seq<int>>, now: seq<seq<int>>, d: OnDisk, data: seq<int>)
    requires Wrote(was, now, d, 0, data) && Usable(was, d) && ByteValues(Contents(was, d)) && ByteValues(data)
    ensures Usable(now, d) && FileMap(now, d) == FileMap(was, d) && SameElsewhere(was, now, FileMap(was, d))
    ensures ByteValues(Contents(now, d)) && |data| <= d.length && Contents(now, d)[..|data|] == data
  {
    hide Usable, Flat, FileMap;
    WriteThenRead(was, now, d, 0, data);
    var f, g := Contents(was, d), Contents(now, d);
    forall i | 0 <= i < |g| ensures 0 <= g[i] < 256 {
      if i < |data| { assert g[0..|data|][i] == g[i]; }
    }
  }

  /** What `FreeMap` takes as an input is what bitmap_write does: sectors of the free map file are put on the device. */
  lemma {:induction false} StoreIsPut(was: seq<seq<int>>, now: seq<seq<int>>, m: seq<int>) returns (w: FileWrite)
    requires SameElsewhere(was, now, m)
    ensures Sized(w.put) && now == Put(was, w.put) && forall p | p in w.put :: p in m && 0 <= p < |was|
  {
    w := FileWrite(map p | 0 <= p < |was| && p in m :: now[p], true);
    forall p | 0 <= p < |was| ensures Put(was, w.put)[p] == now[p] {}
  }

  // ---------------------------------------------------------------- free_map_allocate

  /** free_map_allocate with the free map file open: after a success the file on the device holds the new map. */
  method Allocate(dev: Device, table: Table, d: OnDisk, cnt: nat, denyCnt: int, memory: bool) returns (r: Option<nat>)
    requires table.Valid() && Usable(dev.blocks, d) && ByteValues(Contents(dev.blocks, d))
    modifies dev, table.table`bits, table.table.words
    ensures table.Valid() && Usable(dev.blocks, d) && FileMap(dev.blocks, d) == FileMap(old(dev.blocks), d)
    ensures SameElsewhere(old(dev.blocks), dev.blocks, FileMap(old(dev.blocks), d))
    ensures r.Some? ==>
      && FirstGroup(old(table.table.bits), 0, cnt, false, r.value)
      && table.table.bits == Filled(old(table.table.bits), r.value, cnt, true)
      && HeldIn(Contents(dev.blocks, d), table.table.bits)
    ensures r.None? ==>
      && table.table.bits == old(table.table.bits)
      && (NoGroup(old(table.table.bits), 0, cnt, false) || denyCnt != 0 || !AllMoved(table.table, d, memory))
  {
    hide Usable, FileMap, Contents, HeldIn, Stands, Filled, ByteValues, AllMoved;
    ghost var bits := table.table.bits;
    Unmoved(dev.blocks, d);
    r := table.table.ScanAndFlip(0, cnt, false);
    if r.Some? {
      var written := Store(dev, d, table.table, denyCnt, memory);
      if !written {
        FillBack(bits, r.value, cnt);
        table.table.SetMultiple(r.value, cnt, false);
        r := None;
      }
    }
  }

  lemma {:induction false} Unmoved(blocks: seq<seq<int>>, d: OnDisk)
    requires Usable(blocks, d)
    ensures SameElsewhere(blocks, blocks, FileMap(blocks, d))
  {
  }

  // ---------------------------------------------------------------- bitmap_read

  /** last_mask. */
  function LastMask(bitCnt: nat): nat {
    if bitCnt % ELEM_BITS != 0 then Pow2(bitCnt % ELEM_BITS) - 1 else Pow2(32) - 1
  }

  /** The mask keeps the bits of the last word that are in the bitmap. */
  lemma {:induction false} Masked(bitCnt: nat, w: nat, i: nat)
    requires i < bitCnt && Elem(i) == ElemCnt(bitCnt) - 1 && w < Pow2(32)
    ensures And(w, LastMask(bitCnt)) < Pow2(32) && BitOf(And(w, LastMask(bitCnt)), Offset(i)) == BitOf(w, Offset(i))
  {
    var n, k := if bitCnt % ELEM_BITS != 0 then bitCnt % ELEM_BITS else 32, Offset(i);
    LastOffset(bitCnt, i);
    MaskFits(bitCnt, w);
    hide And, BitOf, Bit, Pow2;
    var m := LastMask(bitCnt);
    assert m == Not(0, n);
    NotBit(0, n, k);
    ZeroBits(k);
    AndBit(w, m, k);
    BitOfIsBit(w, k);
    BitOfIsBit(And(w, m), k);
  }

  lemma {:induction false} LastOffset(bitCnt: nat, i: nat)
    requires i < bitCnt && Elem(i) == ElemCnt(bitCnt) - 1
    ensures Offset(i) < if bitCnt % ELEM_BITS != 0 then bitCnt % ELEM_BITS else 32
  {
  }

  lemma {:induction false} MaskFits(bitCnt: nat, w: nat)
    requires w < Pow2(32)
    ensures And(w, LastMask(bitCnt)) < Pow2(32)
  {
    hide And, Pow2;
    if bitCnt % ELEM_BITS != 0 { Pow2Grows(bitCnt % ELEM_BITS, 32); }
    Fits(w, LastMask(bitCnt), 32);
  }

  /** Words read from bytes: all but the last as they are, the last masked. */
  ghost predicate Unpacked(f: seq<int>, bitCnt: nat, words: seq<nat>) {
    && |words| == ElemCnt(bitCnt) && 4 * |words| <= |f| && ByteValues(f)
    && forall k: nat | k < |words| ::
         words[k] == if k < |words| - 1 then FileWord(f, k) else And(FileWord(f, k), LastMask(bitCnt))
  }

  lemma {:induction false} UnpackedBit(f: seq<int>, bitCnt: nat, words: seq<nat>, i: nat)
    requires Unpacked(f, bitCnt, words) && i < bitCnt
    ensures Elem(i) < |words| && BitOf(words[Elem(i)], Offset(i)) == BitIn(f, bitCnt, i)
  {
    ElemIn(bitCnt, i);
    Pow2At31();
    hide And, BitOf, Pow2, LastMask, FileWord, Offset;
    if Elem(i) == |words| - 1 { Masked(bitCnt, FileWord(f, Elem(i)), i); }
  }

  lemma {:induction false} UnpackedWord(f: seq<int>, bitCnt: nat, words: seq<nat>, k: nat)
    requires Unpacked(f, bitCnt, words) && k < |words|
    ensures words[k] < Pow2(32)
  {
    Pow2At31();
    hide And, Pow2, LastMask;
    MaskFits(bitCnt, FileWord(f, k));
  }

  /** The bytes of the buffer become the words of the bitmap, and the last is masked. */
  method Unpack(bm: Map, buffer: array<int>)
    requires buffer.Length == 4 * bm.words.Length && bm.words.Length == ElemCnt(bm.bitCnt) > 0
    requires ByteValues(buffer[..])
    modifies bm`bits, bm.words
    ensures bm.Valid() && forall i: nat | i < bm.bitCnt :: bm.bits[i] == BitIn(buffer[..], bm.bitCnt, i)
  {
    hide And, BitOf, Pow2, LastMask, FileWord, Elem, Offset, ByteValues;
    ghost var f := buffer[..];
    var n := bm.words.Length;
    for k := 0 to n
      invariant buffer[..] == f && forall j: nat | j < k :: bm.words[j] == FileWord(f, j)
    {
      bm.words[k] := FileWord(buffer[..], k);
    }
    bm.words[n - 1] := And(bm.words[n - 1], LastMask(bm.bitCnt));
    ghost var ws := bm.words[..];
    assert Unpacked(f, bm.bitCnt, ws);
    forall i: nat | i < bm.bitCnt ensures Elem(i) < |ws| && BitOf(ws[Elem(i)], Offset(i)) == BitIn(f, bm.bitCnt, i) {
      UnpackedBit(f, bm.bitCnt, ws, i);
    }
    forall k: nat | k < |ws| ensures ws[k] < Pow2(32) { UnpackedWord(f, bm.bitCnt, ws, k); }
    bm.bits := seq(bm.bitCnt, i requires 0 <= i < bm.bitCnt => BitIn(f, bm.bitCnt, i));
  }

  /** bitmap_read: if it succeeds the bitmap is the one that the file holds. */
  method Load(dev: Device, d: OnDisk, bm: Map, memory: bool) returns (ok: bool)
    requires bm.Valid() && Usable(dev.blocks, d) && ByteValues(Contents(dev.blocks, d))
    modifies bm`bits, bm.words
    ensures bm.Valid() && (ok <==> bm.bitCnt == 0 || AllMoved(bm, d, memory))
    ensures ok ==> HeldIn(Contents(dev.blocks, d), bm.bits)
  {
    if bm.bitCnt == 0 {
      return true;
    }
    hide Usable, Contents, Transferred, HasRead, BitIn, Pack;
    var data := Pack(bm.words[..]);
    PackIsBytes(bm.words[..]);
    var buffer := new int[|data|](i requires 0 <= i < |data| => data[i]);
    var n := ReadAt(dev, d, buffer, |data|, 0, memory);
    ok := n == |data|;
    ReadBytes(Contents(dev.blocks, d), n, data, buffer[..]);
    Unpack(bm, buffer);
    if ok { ReadAll(Contents(dev.blocks, d), buffer[..], bm.bits); }
  }

  lemma {:induction false} ReadBytes(f: seq<int>, n: int, was: seq<int>, now: seq<int>)
    requires HasRead(f, 0, n, was, now) && ByteValues(f) && ByteValues(was)
    ensures ByteValues(now)
    ensures n == |now| ==> |now| <= |f| && f[..|now|] == now
  {
    forall i | 0 <= i < |now| ensures 0 <= now[i] < 256 {
      if i < n { assert now[..n][i] == f[0..n][i]; } else { assert now[n..][i - n] == was[n..][i - n]; }
    }
  }

  lemma {:induction false} ReadAll(f: seq<int>, b: seq<int>, bits: seq<bool>)
    requires ByteValues(f) && |b| <= |f| && f[..|b|] == b && HeldIn(b, bits)
    ensures HeldIn(f, bits)
  {
    hide BitOf, Word;
    forall i: nat | i < |bits| ensures bits[i] == BitIn(f, |bits|, i) {
      ElemIn(|bits|, i);
      SameWord(f, b, Elem(i));
    }
  }

  /** A file holds one bitmap of a size: what bitmap_read finds is what bitmap_write left. */
  lemma {:induction false} ReadBackMap(f: seq<int>, written: seq<bool>, read: seq<bool>)
    requires HeldIn(f, written) && HeldIn(f, read) && |written| == |read|
    ensures read == written
  {
    hide BitOf;
  }
}
