/**
 The free map (filesys/free-map.c): one bit per sector, clear when the sector is free. What writing the bitmap to its
 file puts on the device, and whether all of it could be written, is an input of each allocation.
 */
module FreeMap {
  import opened Basics
  import opened Sectors
  import opened Bitmap

  /** What bitmap_write does to the device: the sectors it writes, and whether it writes the whole bitmap. */
  datatype FileWrite = FileWrite(put: map<int, seq<int>>, ok: bool)

  ghost predicate Sized(put: map<int, seq<int>>) {
    forall p | p in put :: |put[p]| == SECTOR_SIZE
  }

  /** The device after the sectors `put` are written. */
  function Put(blocks: seq<seq<int>>, put: map<int, seq<int>>): (r: seq<seq<int>>)
    ensures |r| == |blocks|
  {
    seq(|blocks|, p requires 0 <= p < |blocks| => if p in put then put[p] else blocks[p])
  }

  method WriteFile(dev: Device, w: FileWrite) returns (ok: bool)
    requires dev.Valid() && Sized(w.put)
    modifies dev
    ensures dev.Valid() && dev.blocks == Put(old(dev.blocks), w.put) && ok == w.ok
  {
    dev.blocks := Put(dev.blocks, w.put);
    ok := w.ok;
  }

  /** The first clear bit, or the length. */
  function FirstClear(bits: seq<bool>): (i: nat)
    ensures i <= |bits| && (forall k | 0 <= k < i :: bits[k]) && (i < |bits| ==> !bits[i])
  {
    if bits == [] || !bits[0] then 0 else 1 + FirstClear(bits[1..])
  }

  lemma {:induction false} FirstClearIs(bits: seq<bool>, i: nat)
    requires i < |bits| && !bits[i] && forall k | 0 <= k < i :: bits[k]
    ensures FirstClear(bits) == i
  {
  }

  lemma {:induction false} SomeClear(bits: seq<bool>)
    ensures FirstClear(bits) < |bits| <==> Count(bits, false) > 0
  {
    if bits != [] && bits[0] { SomeClear(bits[1..]); }
  }

  /** A bit flipped from clear to set is one clear bit less. */
  lemma {:induction false} CountSet(bits: seq<bool>, i: nat)
    requires i < |bits| && !bits[i]
    ensures Count(bits[i := true], false) == Count(bits, false) - 1
    decreases |bits|
  {
    var s := bits[i := true];
    if i == 0 {
      assert s[1..] == bits[1..];
    } else {
      assert s[1..] == bits[1..][i - 1 := true];
      CountSet(bits[1..], i - 1);
    }
  }

  class Table {
    const table: Map

    ghost predicate Valid()
      reads table, table.words
    {
      table.Valid()
    }

    /** free_map_init: every sector is free but those of the free map and the root directory. */
    constructor (sectors: nat)
      requires sectors >= 2
      ensures Valid() && fresh(table) && fresh(table.words) && table.bitCnt == sectors
      ensures table.bits == seq(sectors, i => i == 0 || i == 1)
    {
      table := new Map(sectors);
      new;
      table.Mark(0);
      table.Mark(1);
    }

    /** free_map_allocate: the first group of free sectors, once the bitmap is written; no bit changes when there is no
        group or the bitmap is not written. */
    method Allocate(dev: Device, cnt: nat, w: FileWrite) returns (r: Option<nat>)
      requires Valid() && dev.Valid() && Sized(w.put)
      modifies dev, table`bits, table.words
      ensures Valid() && dev.Valid()
      ensures r.Some? ==>
        w.ok && FirstGroup(old(table.bits), 0, cnt, false, r.value)
        && table.bits == Filled(old(table.bits), r.value, cnt, true)
      ensures r.None? ==> table.bits == old(table.bits) && (!w.ok || NoGroup(old(table.bits), 0, cnt, false))
      ensures dev.blocks ==
        if NoGroup(old(table.bits), 0, cnt, false) then old(dev.blocks) else Put(old(dev.blocks), w.put)
    {
      r := table.ScanAndFlip(0, cnt, false);
      if r.Some? {
        var written := WriteFile(dev, w);
        if !written {
          FillBack(old(table.bits), r.value, cnt);
          table.SetMultiple(r.value, cnt, false);
          r := None;
        }
      }
    }

    /** free_map_release; whether the bitmap could be written is not looked at. */
    method Release(dev: Device, sector: nat, cnt: nat, w: FileWrite)
      requires Valid() && sector + cnt <= table.bitCnt && AllAre(table.bits, sector, cnt, true)
      requires dev.Valid() && Sized(w.put)
      modifies dev, table`bits, table.words
      ensures Valid() && table.bits == Filled(old(table.bits), sector, cnt, false)
      ensures dev.Valid() && dev.blocks == Put(old(dev.blocks), w.put)
    {
      table.SetMultiple(sector, cnt, false);
      var _ := WriteFile(dev, w);
    }

    /** free_map_unused. */
    method Unused() returns (n: nat)
      requires Valid()
      ensures n == Count(table.bits, false)
    {
      n := table.CountBits(0, table.bitCnt, false);
      assert table.bits[0..table.bitCnt] == table.bits;
    }

    /** One sector, as write_sectors_to_disk asks for it: `position` keeps its value when the allocation fails. */
    method AllocateOne(dev: Device, position: int, w: FileWrite) returns (p: int)
      requires Valid() && dev.Valid() && Sized(w.put)
      modifies dev, table`bits, table.words
      ensures Valid() && dev.Valid()
      ensures var i := FirstClear(old(table.bits));
        if w.ok && i < |old(table.bits)| then p == i && table.bits == old(table.bits)[i := true]
        else p == position && table.bits == old(table.bits)
      ensures dev.blocks ==
        if FirstClear(old(table.bits)) < |old(table.bits)| then Put(old(dev.blocks), w.put) else old(dev.blocks)
    {
      hide FirstClear, FirstGroup, NoGroup, Filled, Put, Stands;
      ghost var bits := table.bits;
      OneGroup(bits);
      var r := Allocate(dev, 1, w);
      if r.Some? {
        OneTaken(bits, r.value);
        p := r.value;
      } else {
        p := position;
      }
    }
  }

  lemma {:induction false} OneTaken(bits: seq<bool>, i: nat)
    requires FirstGroup(bits, 0, 1, false, i)
    ensures i < |bits| && FirstClear(bits) == i && Filled(bits, i, 1, true) == bits[i := true]
  {
    assert AllAre(bits, i, 1, false);
    forall k | 0 <= k < i ensures bits[k] { assert !AllAre(bits, k, 1, false); }
    FirstClearIs(bits, i);
  }

  lemma {:induction false} OneGroup(bits: seq<bool>)
    ensures forall k: nat | k + 1 <= |bits| :: AllAre(bits, k, 1, false) == !bits[k]
    ensures NoGroup(bits, 0, 1, false) <==> FirstClear(bits) == |bits|
  {
    forall k: nat | k + 1 <= |bits| ensures AllAre(bits, k, 1, false) == !bits[k] {
      assert !bits[k] ==> AllAre(bits, k, 1, false);
    }
    var i := FirstClear(bits);
    if i < |bits| { assert AllAre(bits, i, 1, false); }
  }
}
