/**
 Directories (filesys/directory.c): a file of 20-byte entries, read and written through the inode layer, that stands
 for a finite map from names to sectors. Whether each read and write gets its bounce buffer is an input; a name is the
 bytes before its terminator.
 */
module Directory {
  import opened Basics
  import opened Sectors
  import opened InodeTree
  import opened InodeData

  const ENTRY_SIZE: int := 20
  const NAME_MAX: int := 14

  // ---------------------------------------------------------------- entries

  ghost predicate ValidName(s: seq<int>) {
    1 <= |s| <= NAME_MAX && forall i | 0 <= i < |s| :: s[i] != 0
  }

  /** The fields of a struct dir_entry: inode_sector, name, in_use. */
  function SectorOf(b: seq<int>): int
    requires |b| == ENTRY_SIZE
  {
    Word(b, 0)
  }

  function NameOf(b: seq<int>): seq<int>
    requires |b| == ENTRY_SIZE
  {
    UpToZero(b[4..19])
  }

  predicate InUse(b: seq<int>)
    requires |b| == ENTRY_SIZE
  {
    b[19] != 0
  }

  function Count(f: seq<int>): nat { |f| / ENTRY_SIZE }

  function Entry(f: seq<int>, i: int): (b: seq<int>)
    requires 0 <= i < Count(f)
    ensures |b| == ENTRY_SIZE
  {
    f[ENTRY_SIZE * i..ENTRY_SIZE * i + ENTRY_SIZE]
  }

  /** Entry `i` is in use under `name`. */
  predicate Named(f: seq<int>, i: int, name: seq<int>) {
    0 <= i < Count(f) && InUse(Entry(f, i)) && NameOf(Entry(f, i)) == name
  }

  /** No two entries in use have the same name. */
  ghost predicate Unique(f: seq<int>) {
    forall i, j, name :: Named(f, i, name) && Named(f, j, name) ==> i == j
  }

  /** The map that the first `n` entries stand for. */
  function MapUpTo(f: seq<int>, n: nat): map<seq<int>, int>
    requires n <= Count(f)
  {
    if n == 0 then map[]
    else if InUse(Entry(f, n - 1)) then MapUpTo(f, n - 1)[NameOf(Entry(f, n - 1)) := SectorOf(Entry(f, n - 1))]
    else MapUpTo(f, n - 1)
  }

  /** The map that a directory stands for. */
  function AsMap(f: seq<int>): map<seq<int>, int> { MapUpTo(f, Count(f)) }

  lemma {:induction false} MapUpToHas(f: seq<int>, n: nat, i: int, name: seq<int>)
    requires Unique(f) && n <= Count(f) && Named(f, i, name)
    ensures name in MapUpTo(f, n) <==> i < n
    ensures i < n ==> MapUpTo(f, n)[name] == SectorOf(Entry(f, i))
  {
    hide SectorOf, NameOf, InUse, Entry;
    if n > 0 {
      MapUpToHas(f, n - 1, i, name);
      if InUse(Entry(f, n - 1)) && NameOf(Entry(f, n - 1)) == name { assert Named(f, n - 1, name); }
    }
  }

  lemma {:induction false} MapUpToOnly(f: seq<int>, n: nat, name: seq<int>) returns (i: int)
    requires n <= Count(f) && name in MapUpTo(f, n)
    ensures Named(f, i, name) && i < n
  {
    hide SectorOf, NameOf, InUse, Entry;
    if InUse(Entry(f, n - 1)) && NameOf(Entry(f, n - 1)) == name {
      i := n - 1;
    } else {
      i := MapUpToOnly(f, n - 1, name);
    }
  }

  /** A name is in the map exactly when an entry in use has it. */
  lemma {:induction false} MapHas(f: seq<int>, i: int, name: seq<int>)
    requires Unique(f) && Named(f, i, name)
    ensures name in AsMap(f) && AsMap(f)[name] == SectorOf(Entry(f, i))
  {
    MapUpToHas(f, Count(f), i, name);
  }

  lemma {:induction false} MapHasNot(f: seq<int>, name: seq<int>)
    requires forall i :: !Named(f, i, name)
    ensures name !in AsMap(f)
  {
    if name in AsMap(f) {
      var i := MapUpToOnly(f, Count(f), name);
    }
  }

  // ---------------------------------------------------------------- one entry rewritten

  /** `g` is `f` with entry `k` replaced. */
  ghost predicate Replaced(f: seq<int>, k: int, b: seq<int>, g: seq<int>) {
    0 <= k < Count(f) && |b| == ENTRY_SIZE && g == Overwrite(f, ENTRY_SIZE * k, b)
  }

  lemma {:induction false} ReplacedEntries(f: seq<int>, k: int, b: seq<int>, g: seq<int>)
    requires Replaced(f, k, b, g)
    ensures Count(g) == Count(f) && forall i | 0 <= i < Count(f) :: Entry(g, i) == if i == k then b else Entry(f, i)
  {
    hide Overwrite;
    forall i | 0 <= i < Count(f) ensures Entry(g, i) == if i == k then b else Entry(f, i) {
      ReplacedEntry(f, k, b, g, i);
    }
  }

  lemma {:induction false} ReplacedEntry(f: seq<int>, k: int, b: seq<int>, g: seq<int>, i: int)
    requires Replaced(f, k, b, g) && 0 <= i < Count(f)
    ensures Entry(g, i) == if i == k then b else Entry(f, i)
  {
    hide Overwrite;
    var e := Entry(g, i);
    forall o | 0 <= o < ENTRY_SIZE ensures e[o] == if i == k then b[o] else Entry(f, i)[o] {
      assert e[o] == g[ENTRY_SIZE * i + o];
    }
  }

  /** Filling a free entry with a new name adds the name to the map and changes nothing else. */
  lemma {:induction false} AddedIs(f: seq<int>, k: int, b: seq<int>, g: seq<int>)
    requires Unique(f) && Replaced(f, k, b, g) && !InUse(Entry(f, k)) && InUse(b) && NameOf(b) !in AsMap(f)
    ensures Unique(g) && AsMap(g) == AsMap(f)[NameOf(b) := SectorOf(b)]
  {
    ReplacedEntries(f, k, b, g);
    hide SectorOf, NameOf, InUse, Entry, Replaced, Count;
    forall i, name | Named(g, i, name) && i != k ensures Named(f, i, name) && name != NameOf(b) { MapHas(f, i, name); }
    SameMap(f, g, k, b);
  }

  lemma {:induction false} SameMap(f: seq<int>, g: seq<int>, k: int, b: seq<int>)
    requires Unique(f) && Unique(g) && 0 <= k < Count(f) == Count(g) && |b| == ENTRY_SIZE && InUse(b)
    requires !InUse(Entry(f, k))
    requires forall i | 0 <= i < Count(f) :: Entry(g, i) == if i == k then b else Entry(f, i)
    ensures AsMap(g) == AsMap(f)[NameOf(b) := SectorOf(b)]
  {
    hide SectorOf, NameOf, InUse, Entry, Count;
    var m := AsMap(f)[NameOf(b) := SectorOf(b)];
    assert Named(g, k, NameOf(b));
    forall name | name in AsMap(g) ensures name in m && m[name] == AsMap(g)[name] {
      var i := MapUpToOnly(g, Count(g), name);
      MapHas(g, i, name);
      if i != k {
        assert Named(f, i, name);
        MapHas(f, i, name);
      }
    }
    forall name | name in m ensures name in AsMap(g) {
      if name == NameOf(b) {
        MapHas(g, k, name);
      } else {
        var i := MapUpToOnly(f, Count(f), name);
        assert Named(g, i, name);
        MapHas(g, i, name);
      }
    }
  }

  /** Freeing an entry takes its name, and only that, out of the map. */
  lemma {:induction false} RemovedIs(f: seq<int>, k: int, b: seq<int>, g: seq<int>)
    requires Unique(f) && Replaced(f, k, b, g) && InUse(Entry(f, k)) && !InUse(b)
    ensures Unique(g) && AsMap(g) == AsMap(f) - {NameOf(Entry(f, k))}
  {
    ReplacedEntries(f, k, b, g);
    hide SectorOf, NameOf, InUse, Entry, Replaced, Count;
    var gone := NameOf(Entry(f, k));
    assert Named(f, k, gone);
    forall i, name | Named(g, i, name) ensures Named(f, i, name) && i != k && name != gone {}
    var m := AsMap(f) - {gone};
    forall name | name in AsMap(g) ensures name in m && m[name] == AsMap(g)[name] {
      var i := MapUpToOnly(g, Count(g), name);
      MapHas(g, i, name);
      MapHas(f, i, name);
    }
    forall name | name in m ensures name in AsMap(g) {
      var i := MapUpToOnly(f, Count(f), name);
      assert Named(g, i, name);
      MapHas(g, i, name);
    }
  }

  // ---------------------------------------------------------------- scanning

  /** Where lookup finds `name` from entry `i` on, when the read of entry `j` succeeds just if `m(j)`. */
  function Search(f: seq<int>, name: seq<int>, m: nat -> bool, i: nat): (r: Option<nat>)
    requires i <= Count(f)
    ensures r.Some? ==> i <= r.value < Count(f) && Named(f, r.value, name)
    decreases Count(f) - i
  {
    if i == Count(f) || !m(i) then None else if Named(f, i, name) then Some(i) else Search(f, name, m, i + 1)
  }

  /** The entry dir_add writes: the first free one, or the one where reading stops. */
  function FreeSlot(f: seq<int>, m: nat -> bool, i: nat): (k: nat)
    requires i <= Count(f)
    ensures i <= k <= Count(f)
    decreases Count(f) - i
  {
    if i == Count(f) || !m(i) || !InUse(Entry(f, i)) then i else FreeSlot(f, m, i + 1)
  }

  /** Every read up to that of entry `j` succeeds. */
  ghost predicate ReadTo(m: nat -> bool, j: int) {
    forall i: nat | i <= j :: m(i)
  }

  /** No read that lookup needs fails: an entry in use under the name is reached. */
  ghost predicate LookupReads(f: seq<int>, name: seq<int>, m: nat -> bool) {
    forall j | Named(f, j, name) :: ReadTo(m, j)
  }

  /** No read that the scan for a free entry needs fails: before the first failed one there is a free entry, or it is
      there. */
  ghost predicate ScanReads(f: seq<int>, m: nat -> bool) {
    forall i: nat | i < Count(f) && !m(i) :: exists j :: 0 <= j <= i && !InUse(Entry(f, j))
  }

  /** lookup succeeds exactly when an entry in use has the name and every read up to it succeeds. */
  lemma {:induction false} SearchFinds(f: seq<int>, name: seq<int>, m: nat -> bool, i: nat, j: nat)
    requires i <= j && Named(f, j, name) && forall k: nat | i <= k <= j :: m(k)
    ensures Search(f, name, m, i).Some?
    decreases j - i
  {
    if i < j && !Named(f, i, name) { SearchFinds(f, name, m, i + 1, j); }
  }

  lemma {:induction false} SearchRead(f: seq<int>, name: seq<int>, m: nat -> bool, i: nat)
    requires i <= Count(f)
    ensures var r := Search(f, name, m, i); r.Some? ==> forall k: nat | i <= k <= r.value :: m(k)
    decreases Count(f) - i
  {
    if i < Count(f) { SearchRead(f, name, m, i + 1); }
  }

  /** lookup agrees with the map exactly when the reads up to the entry with the name, if there is one, succeed. */
  lemma {:induction false} SearchAgrees(f: seq<int>, name: seq<int>, m: nat -> bool)
    requires Unique(f)
    ensures Search(f, name, m, 0).Some? <==> exists j :: Named(f, j, name) && ReadTo(m, j)
    ensures (Search(f, name, m, 0).Some? <==> name in AsMap(f)) <==> LookupReads(f, name, m)
    ensures var r := Search(f, name, m, 0);
      r.Some? ==> name in AsMap(f) && AsMap(f)[name] == SectorOf(Entry(f, r.value))
  {
    SearchRead(f, name, m, 0);
    hide SectorOf, NameOf, InUse, Entry, Count;
    var r := Search(f, name, m, 0);
    forall j | Named(f, j, name) ensures name in AsMap(f) && (ReadTo(m, j) ==> r.Some?) {
      MapHas(f, j, name);
      if ReadTo(m, j) { SearchFinds(f, name, m, 0, j); }
    }
    if r.Some? {
      MapHas(f, r.value, name);
    } else if forall j :: !Named(f, j, name) {
      MapHasNot(f, name);
    }
  }

  /** The scan stops at the first entry that is free or not read. */
  lemma {:induction false} SlotIs(f: seq<int>, m: nat -> bool, i: nat)
    requires i <= Count(f)
    ensures var k := FreeSlot(f, m, i);
      && (k < Count(f) ==> !m(k) || !InUse(Entry(f, k)))
      && forall j: nat | i <= j < k :: m(j) && InUse(Entry(f, j))
    decreases Count(f) - i
  {
    hide InUse, Entry, Count;
    if i < Count(f) && m(i) && InUse(Entry(f, i)) { SlotIs(f, m, i + 1); }
  }

  /** The entry it stops at, if it is one, is free exactly when the reads before the first free entry succeed. */
  lemma {:induction false} SlotFree(f: seq<int>, m: nat -> bool)
    ensures var k := FreeSlot(f, m, 0);
      && (k < Count(f) <==> exists j: nat :: j < Count(f) && (!m(j) || !InUse(Entry(f, j))))
      && (k < Count(f) ==> (!InUse(Entry(f, k)) <==> ScanReads(f, m)))
      && (ScanReads(f, m) ==> (k < Count(f) <==> exists j :: 0 <= j < Count(f) && !InUse(Entry(f, j))))
  {
    SlotIs(f, m, 0);
    hide InUse, Entry, Count, FreeSlot;
    var k := FreeSlot(f, m, 0);
    if k < Count(f) && InUse(Entry(f, k)) { assert !m(k) && !ScanReads(f, m); }
  }

  /** inode_read_at of one entry. */
  method ReadEntry(dev: Device, d: OnDisk, ghost f: seq<int>, e: array<int>, i: nat, memory: bool) returns (ok: bool)
    requires Usable(dev.blocks, d) && f == Contents(dev.blocks, d) && e.Length == ENTRY_SIZE
    modifies e
    ensures ok <==> memory && i < Count(f)
    ensures ok ==> e[..] == Entry(f, i)
  {
    var n := ReadAt(dev, d, e, ENTRY_SIZE, ENTRY_SIZE * i, memory);
    ok := n == ENTRY_SIZE;
    EntryRead(d.length, i, memory);
    hide Contents, Usable, Transferred;
    if ok {
      assert e[..ENTRY_SIZE] == e[..];
    }
  }

  lemma {:induction false} EntryRead(length: int, i: nat, memory: bool)
    requires length >= 0
    ensures Transferred(length, ENTRY_SIZE, ENTRY_SIZE * i, memory) == ENTRY_SIZE <==> memory && i < length / ENTRY_SIZE
  {
  }

  lemma {:induction false} SearchStep(f: seq<int>, name: seq<int>, m: nat -> bool, i: nat)
    requires i <= Count(f)
    ensures i == Count(f) || !m(i) ==> Search(f, name, m, i) == None
    ensures i < Count(f) && m(i) && InUse(Entry(f, i)) && NameOf(Entry(f, i)) == name ==>
      Search(f, name, m, i) == Some(i)
    ensures i < Count(f) && m(i) && !(InUse(Entry(f, i)) && NameOf(Entry(f, i)) == name) ==>
      Search(f, name, m, i) == Search(f, name, m, i + 1)
  {
    hide InUse, NameOf, Entry, Count;
  }

  /** lookup. */
  method Lookup(dev: Device, d: OnDisk, ghost f: seq<int>, name: seq<int>, e: array<int>, m: nat -> bool)
    returns (r: Option<nat>)
    requires Usable(dev.blocks, d) && f == Contents(dev.blocks, d) && e.Length == ENTRY_SIZE
    modifies e
    ensures r == Search(f, name, m, 0)
    ensures r.Some? ==> e[..] == Entry(f, r.value)
  {
    ghost var blocks := dev.blocks;
    hide Usable, Contents, SectorOf, NameOf, InUse, Entry, Count, Search, Named;
    var i := 0;
    var going := true;
    r := None;
    while going
      invariant dev.blocks == blocks && 0 <= i <= Count(f)
      invariant going ==> r == None && Search(f, name, m, i) == Search(f, name, m, 0)
      invariant !going ==> r == Search(f, name, m, 0) && (r.Some? ==> r.value < Count(f) && e[..] == Entry(f, r.value))
      decreases going, Count(f) - i
    {
      SearchStep(f, name, m, i);
      going := ReadEntry(dev, d, f, e, i, m(i));
      if going && InUse(e[..]) && NameOf(e[..]) == name {
        r := Some(i);
        going := false;
      } else if going {
        i := i + 1;
      }
    }
  }

  // ---------------------------------------------------------------- dir_add

  /** The same entries; bytes past the last whole entry may differ. */
  ghost predicate SameEntries(f: seq<int>, g: seq<int>) {
    |g| == |f| && forall i | 0 <= i < Count(f) :: Entry(g, i) == Entry(f, i)
  }

  /** Entry `k`, and no other, now holds `name` and `sector`. */
  ghost predicate Stored(f: seq<int>, g: seq<int>, k: int, name: seq<int>, sector: int) {
    && 0 <= k < Count(f) == Count(g) && Replaced(f, k, Entry(g, k), g)
    && InUse(Entry(g, k)) && NameOf(Entry(g, k)) == name && SectorOf(Entry(g, k)) == sector
  }

  ghost predicate AddResult(f: seq<int>, g: seq<int>, name: seq<int>, sector: int, m1: nat -> bool, m2: nat -> bool,
                            writable: bool, ok: bool) {
    && (ok <==> 1 <= |name| <= NAME_MAX && Search(f, name, m1, 0).None? && FreeSlot(f, m2, 0) < Count(f) && writable)
    && (if ok then Stored(f, g, FreeSlot(f, m2, 0), name, sector) else SameEntries(f, g))
  }

  /** The entry that dir_add composes in its buffer. */
  function Composed(b: seq<int>, name: seq<int>, sector: int): (r: seq<int>)
    requires |b| == ENTRY_SIZE && |name| <= NAME_MAX
    ensures |r| == ENTRY_SIZE
  {
    Overwrite(Overwrite(b[19 := 1], 4, name + [0]), 0, Pack([sector]))
  }

  lemma {:induction false} ComposedIs(b: seq<int>, name: seq<int>, sector: int)
    requires |b| == ENTRY_SIZE && ValidName(name) && IsWord(sector)
    ensures var r := Composed(b, name, sector); InUse(r) && NameOf(r) == name && SectorOf(r) == sector
  {
    PackWord([sector], 0);
    hide Overwrite, Pack, UpToZero;
    var r := Composed(b, name, sector);
    var t := r[4..19];
    forall i | 0 <= i < |name| ensures t[i] == name[i] { assert t[i] == r[4 + i] == (name + [0])[i]; }
    assert t[|name|] == r[4 + |name|] == (name + [0])[|name|];
    assert t[..|name|] == name;
    ReadString(t, name);
    assert r[..4] == Pack([sector]);
    assert Word(r, 0) == Word(Pack([sector]), 0);
  }

  lemma {:induction false} FreeSlotStep(f: seq<int>, m: nat -> bool, i: nat)
    requires i <= Count(f)
    ensures i == Count(f) || !m(i) ==> FreeSlot(f, m, i) == i
    ensures i < Count(f) && m(i) ==> FreeSlot(f, m, i) == if InUse(Entry(f, i)) then FreeSlot(f, m, i + 1) else i
  {
    hide InUse, Entry, Count;
  }

  method FindFree(dev: Device, d: OnDisk, ghost f: seq<int>, e: array<int>, m: nat -> bool) returns (k: nat)
    requires Usable(dev.blocks, d) && f == Contents(dev.blocks, d) && e.Length == ENTRY_SIZE
    modifies e
    ensures k == FreeSlot(f, m, 0)
  {
    ghost var blocks := dev.blocks;
    hide Usable, Contents, InUse, Entry, Count, FreeSlot;
    k := 0;
    while true
      invariant dev.blocks == blocks
      invariant 0 <= k <= Count(f) && FreeSlot(f, m, k) == FreeSlot(f, m, 0)
      decreases Count(f) - k
    {
      FreeSlotStep(f, m, k);
      var ok := ReadEntry(dev, d, f, e, k, m(k));
      if !ok {
        return;
      }
      if !InUse(e[..]) {
        return;
      }
      k := k + 1;
    }
  }

  method Compose(e: array<int>, name: seq<int>, sector: int)
    requires e.Length == ENTRY_SIZE && |name| <= NAME_MAX
    modifies e
    ensures e[..] == Composed(old(e[..]), name, sector)
  {
    hide Pack;
    e[19] := 1;
    var text := name + [0];
    forall i | 0 <= i < |text| {
      e[4 + i] := text[i];
    }
    var word := Pack([sector]);
    forall i | 0 <= i < 4 {
      e[i] := word[i];
    }
  }

  /** inode_write_at of one entry. */
  method WriteEntry(dev: Device, d: OnDisk, denyCnt: int, b: seq<int>, k: nat, memory: bool) returns (ok: bool)
    requires Usable(dev.blocks, d) && |b| == ENTRY_SIZE && k <= Count(Contents(dev.blocks, d))
    modifies dev
    ensures Usable(dev.blocks, d) && SameElsewhere(old(dev.blocks), dev.blocks, FileMap(old(dev.blocks), d))
    ensures ok <==> denyCnt == 0 && memory && k < Count(Contents(old(dev.blocks), d))
    ensures ok ==> Replaced(Contents(old(dev.blocks), d), k, b, Contents(dev.blocks, d))
    ensures !ok ==> SameEntries(Contents(old(dev.blocks), d), Contents(dev.blocks, d))
  {
    ghost var was := dev.blocks;
    var n := WriteAt(dev, d, denyCnt, b, ENTRY_SIZE, ENTRY_SIZE * k, memory);
    ok := n == ENTRY_SIZE;
    EntryRead(d.length, k, memory);
    hide Usable, Flat, FileMap, Transferred, Overwrite;
    assert ok ==> b[..n] == b;
    if !ok { ShortWrite(Contents(was, d), k, b[..n], Contents(dev.blocks, d)); }
  }

  /** A write that starts past every whole entry changes none of them. */
  lemma {:induction false} ShortWrite(f: seq<int>, k: nat, data: seq<int>, g: seq<int>)
    requires k <= Count(f) && |data| < ENTRY_SIZE && (data != [] ==> k == Count(f) && ENTRY_SIZE * k + |data| <= |f|)
    requires g == if data == [] then f else Overwrite(f, ENTRY_SIZE * k, data)
    ensures SameEntries(f, g)
  {
    hide Overwrite;
  }

  /** dir_add. */
  method Add(dev: Device, d: OnDisk, denyCnt: int, name: seq<int>, sector: int, m1: nat -> bool, m2: nat -> bool,
             memory: bool)
    returns (ok: bool)
    requires Usable(dev.blocks, d) && IsWord(sector) && forall i | 0 <= i < |name| :: name[i] != 0
    modifies dev
    ensures Usable(dev.blocks, d) && SameElsewhere(old(dev.blocks), dev.blocks, FileMap(old(dev.blocks), d))
    ensures AddResult(Contents(old(dev.blocks), d), Contents(dev.blocks, d), name, sector, m1, m2,
                      denyCnt == 0 && memory, ok)
  {
    ghost var f := Contents(dev.blocks, d);
    StillThere(dev.blocks, d);
    hide Contents, Usable, FileMap, SectorOf, NameOf, InUse, Entry, Count, Search, FreeSlot, Composed;
    if name == [] || |name| > NAME_MAX {
      return false;
    }
    var e := new int[ENTRY_SIZE];
    var found := Lookup(dev, d, f, name, e, m1);
    if found.Some? {
      return false;
    }
    var k := FindFree(dev, d, f, e, m2);
    ghost var b := e[..];
    Compose(e, name, sector);
    ComposedIs(b, name, sector);
    ok := WriteEntry(dev, d, denyCnt, e[..], k, memory);
    if ok { ReplacedEntries(f, k, e[..], Contents(dev.blocks, d)); }
  }

  lemma {:induction false} StillThere(blocks: seq<seq<int>>, d: OnDisk)
    requires Usable(blocks, d)
    ensures SameElsewhere(blocks, blocks, FileMap(blocks, d)) && forall f :: SameEntries(f, f)
  {
  }

  /** What dir_add is to do to the map: add a name that was not there, or nothing. */
  ghost predicate Adds(f: seq<int>, g: seq<int>, name: seq<int>, sector: int, ok: bool) {
    && Unique(g) && (ok ==> name !in AsMap(f))
    && AsMap(g) == if ok then AsMap(f)[name := sector] else AsMap(f)
  }

  /** When dir_add writes an entry: the name is good and not met, and an entry is free or not read. */
  ghost predicate Writes(f: seq<int>, name: seq<int>, m1: nat -> bool, m2: nat -> bool, writable: bool) {
    && 1 <= |name| <= NAME_MAX && writable && (forall j | Named(f, j, name) :: !ReadTo(m1, j))
    && exists j: nat :: j < Count(f) && (!m2(j) || !InUse(Entry(f, j)))
  }

  /** dir_add does to the map what it is to do exactly when it writes nothing or no read it needs fails; and then it
      fails only for a bad name, a name that is there, a full directory or a failed write. */
  lemma {:induction false} AddRefines(f: seq<int>, g: seq<int>, name: seq<int>, sector: int,
                                      m1: nat -> bool, m2: nat -> bool, writable: bool, ok: bool)
    requires Unique(f) && AddResult(f, g, name, sector, m1, m2, writable, ok)
    ensures ok <==> Writes(f, name, m1, m2, writable)
    ensures Adds(f, g, name, sector, ok) <==>
      (Writes(f, name, m1, m2, writable) ==> LookupReads(f, name, m1) && ScanReads(f, m2))
    ensures LookupReads(f, name, m1) && ScanReads(f, m2) ==>
      (ok <==> 1 <= |name| <= NAME_MAX && name !in AsMap(f) && writable
               && exists k :: 0 <= k < Count(f) && !InUse(Entry(f, k)))
  {
    SearchAgrees(f, name, m1);
    SlotFree(f, m2);
    if ok { AddedExactly(f, g, FreeSlot(f, m2, 0), name, sector); } else { SameEntriesMap(f, g); }
    hide SectorOf, NameOf, InUse, Entry, Count, Search, FreeSlot, Unique, AsMap, Named, ReadTo, LookupReads, ScanReads;
  }

  /** A name is added exactly when it is new and the entry it is put in is free. */
  lemma {:induction false} AddedExactly(f: seq<int>, g: seq<int>, k: int, name: seq<int>, sector: int)
    requires Unique(f) && Stored(f, g, k, name, sector)
    ensures Adds(f, g, name, sector, true) <==> name !in AsMap(f) && !InUse(Entry(f, k))
  {
    hide SectorOf, NameOf, InUse, Entry, Count, Replaced, Unique, AsMap;
    if name !in AsMap(f) {
      if InUse(Entry(f, k)) {
        LostName(f, g, k, name, sector, NameOf(Entry(f, k)));
      } else {
        AddedIs(f, k, Entry(g, k), g);
      }
    }
  }

  /** A name stored in an entry in use takes the place of the name there, and the file under it is lost. */
  lemma {:induction false} LostName(f: seq<int>, g: seq<int>, k: int, name: seq<int>, sector: int, lost: seq<int>)
    requires Unique(f) && Stored(f, g, k, name, sector) && Named(f, k, lost)
    ensures lost in AsMap(f) && (lost != name ==> lost !in AsMap(g))
  {
    ReplacedEntries(f, k, Entry(g, k), g);
    hide SectorOf, NameOf, InUse, Entry, Count, Replaced, AsMap;
    MapHas(f, k, lost);
    if lost != name {
      assert forall i | i != k :: Named(g, i, lost) ==> Named(f, i, lost);
      MapHasNot(g, lost);
    }
  }

  /** A name stored a second time is in the directory twice. */
  lemma {:induction false} DuplicateName(f: seq<int>, g: seq<int>, k: int, name: seq<int>, sector: int, j: int)
    requires Stored(f, g, k, name, sector) && Named(f, j, name) && j != k
    ensures Named(g, j, name) && Named(g, k, name) && !Unique(g)
  {
    ReplacedEntries(f, k, Entry(g, k), g);
    hide SectorOf, NameOf, InUse, Entry, Count, Replaced;
  }

  lemma {:induction false} SameEntriesMap(f: seq<int>, g: seq<int>)
    requires Unique(f) && SameEntries(f, g)
    ensures Unique(g) && AsMap(g) == AsMap(f)
  {
    hide SectorOf, NameOf, InUse, Entry;
    forall i, name | Named(g, i, name) ensures Named(f, i, name) {}
    SameUpTo(f, g, Count(f));
  }

  lemma {:induction false} SameUpTo(f: seq<int>, g: seq<int>, n: nat)
    requires SameEntries(f, g) && n <= Count(f)
    ensures MapUpTo(g, n) == MapUpTo(f, n)
  {
    hide SectorOf, NameOf, InUse, Entry;
    if n > 0 { SameUpTo(f, g, n - 1); }
  }

  /** A directory of two entries, the first named "a", the second free. */
  function OneFile(): (f: seq<int>)
    ensures |f| == 40
  {
    [5, 0, 0, 0, 97] + seq(14, _ => 0) + [1] + seq(20, _ => 0)
  }

  lemma {:induction false} OneFileIs()
    ensures Unique(OneFile()) && Named(OneFile(), 0, [97]) && !InUse(Entry(OneFile(), 1))
  {
    var f := OneFile();
    var e := Entry(f, 0);
    assert e[4..19][..1] == [97];
    ReadString(e[4..19], [97]);
    assert Entry(f, 1)[19] == f[39] == 0;
    forall i, j, name | Named(f, i, name) && Named(f, j, name) ensures i == j {}
  }

  /** Adding "a" to it again, with the first read of lookup failing and no other. */
  lemma {:induction false} DuplicateExample() returns (g: seq<int>)
    ensures Unique(OneFile()) && AddResult(OneFile(), g, [97], 7, _ => false, _ => true, true, true) && !Unique(g)
  {
    var f := OneFile();
    OneFileIs();
    var b := Composed(seq(20, _ => 0), [97], 7);
    ComposedIs(seq(20, _ => 0), [97], 7);
    hide SectorOf, NameOf, InUse, Composed, OneFile;
    g := Overwrite(f, 20, b);
    ReplacedEntries(f, 1, b, g);
    SearchStep(f, [97], _ => false, 0);
    FreeSlotStep(f, _ => true, 0);
    FreeSlotStep(f, _ => true, 1);
    DuplicateName(f, g, 1, [97], 7, 0);
  }

  /** Adding "b" to it, with the first read of the scan for a free entry failing and no other: "a" is gone. */
  lemma {:induction false} LostExample() returns (g: seq<int>)
    ensures Unique(OneFile()) && AddResult(OneFile(), g, [98], 7, _ => true, _ => false, true, true)
    ensures [97] in AsMap(OneFile()) && [97] !in AsMap(g)
  {
    var f := OneFile();
    OneFileIs();
    var b := Composed(seq(20, _ => 0), [98], 7);
    ComposedIs(seq(20, _ => 0), [98], 7);
    hide SectorOf, NameOf, InUse, Composed, OneFile, AsMap;
    g := Overwrite(f, 0, b);
    ReplacedEntries(f, 0, b, g);
    SearchStep(f, [98], _ => true, 0);
    SearchStep(f, [98], _ => true, 1);
    SearchStep(f, [98], _ => true, 2);
    FreeSlotStep(f, _ => false, 0);
    LostName(f, g, 0, [98], 7, [97]);
  }

  // ---------------------------------------------------------------- dir_remove

  ghost predicate RemoveResult(f: seq<int>, g: seq<int>, name: seq<int>, m: nat -> bool, canOpen: bool, writable: bool,
                               ok: bool) {
    && (ok <==> Search(f, name, m, 0).Some? && canOpen && writable)
    && (if ok then
          var k := Search(f, name, m, 0).value;
          0 <= k < Count(f) == Count(g) && Replaced(f, k, Entry(g, k), g) && !InUse(Entry(g, k))
        else SameEntries(f, g))
  }

  /** dir_remove; `canOpen` says whether the inode of the file could be opened. */
  method Remove(dev: Device, d: OnDisk, denyCnt: int, name: seq<int>, m: nat -> bool, canOpen: bool, memory: bool)
    returns (ok: bool)
    requires Usable(dev.blocks, d)
    modifies dev
    ensures Usable(dev.blocks, d) && SameElsewhere(old(dev.blocks), dev.blocks, FileMap(old(dev.blocks), d))
    ensures RemoveResult(Contents(old(dev.blocks), d), Contents(dev.blocks, d), name, m, canOpen,
                         denyCnt == 0 && memory, ok)
  {
    ghost var f := Contents(dev.blocks, d);
    StillThere(dev.blocks, d);
    hide Contents, Usable, FileMap, SectorOf, NameOf, Entry, Count, Search;
    var e := new int[ENTRY_SIZE];
    var found := Lookup(dev, d, f, name, e, m);
    if found.None? {
      return false;
    }
    if !canOpen {
      return false;
    }
    e[19] := 0;
    ok := WriteEntry(dev, d, denyCnt, e[..], found.value, memory);
    if ok { ReplacedEntries(f, found.value, e[..], Contents(dev.blocks, d)); }
  }

  /** dir_remove takes the name out of the map or leaves the map. It fails for want of the name, or for a failed open or
      write, and for nothing else exactly when no read that it then needs fails. */
  lemma {:induction false} RemoveRefines(f: seq<int>, g: seq<int>, name: seq<int>, m: nat -> bool,
                                         canOpen: bool, writable: bool, ok: bool)
    requires Unique(f) && RemoveResult(f, g, name, m, canOpen, writable, ok)
    ensures Unique(g) && AsMap(g) == if ok then AsMap(f) - {name} else AsMap(f)
    ensures ok ==> name in AsMap(f)
    ensures ok <==> canOpen && writable && exists j :: Named(f, j, name) && ReadTo(m, j)
    ensures (ok <==> name in AsMap(f) && canOpen && writable) <==> (canOpen && writable ==> LookupReads(f, name, m))
  {
    SearchAgrees(f, name, m);
    if ok {
      var k := Search(f, name, m, 0).value;
      RemovedIs(f, k, Entry(g, k), g);
    } else {
      SameEntriesMap(f, g);
    }
    hide SectorOf, NameOf, InUse, Entry, Count, Search, Unique, AsMap, Named, ReadTo, LookupReads;
  }

  // ---------------------------------------------------------------- dir_readdir

  /** The names in use from entry `i` on, in order, up to the first entry that is not read. */
  function NamesFrom(f: seq<int>, m: nat -> bool, i: nat): seq<seq<int>>
    requires i <= Count(f)
    decreases Count(f) - i
  {
    if i == Count(f) || !m(i) then []
    else (if InUse(Entry(f, i)) then [NameOf(Entry(f, i))] else []) + NamesFrom(f, m, i + 1)
  }

  ghost predicate ReadBetween(m: nat -> bool, i: nat, j: int) {
    forall k: nat | i <= k <= j :: m(k)
  }

  /** A name listed is that of an entry that is reached. */
  lemma {:induction false} NamesGot(f: seq<int>, m: nat -> bool, i: nat, name: seq<int>) returns (j: int)
    requires i <= Count(f) && name in NamesFrom(f, m, i)
    ensures i <= j && Named(f, j, name) && ReadBetween(m, i, j)
    decreases Count(f) - i
  {
    hide NameOf, InUse, Entry, Count;
    if InUse(Entry(f, i)) && NameOf(Entry(f, i)) == name {
      j := i;
    } else {
      j := NamesGot(f, m, i + 1, name);
    }
  }

  lemma {:induction false} NamesHave(f: seq<int>, m: nat -> bool, i: nat, j: nat, name: seq<int>)
    requires i <= j && Named(f, j, name) && ReadBetween(m, i, j)
    ensures name in NamesFrom(f, m, i)
    decreases j - i
  {
    hide NameOf, InUse, Entry, Count;
    if i < j { NamesHave(f, m, i + 1, j, name); }
  }

  /** Each name is listed once. */
  lemma {:induction false} NamesOnce(f: seq<int>, m: nat -> bool, i: nat)
    requires Unique(f) && i <= Count(f)
    ensures Distinct(NamesFrom(f, m, i))
    decreases Count(f) - i
  {
    hide SectorOf, NameOf, InUse, Entry, Count;
    if i < Count(f) && m(i) {
      NamesOnce(f, m, i + 1);
      if InUse(Entry(f, i)) {
        var name := NameOf(Entry(f, i));
        assert Named(f, i, name);
        if name in NamesFrom(f, m, i + 1) {
          var j := NamesGot(f, m, i + 1, name);
        }
        var s, t := NamesFrom(f, m, i), NamesFrom(f, m, i + 1);
        assert s == [name] + t;
        forall b | 1 <= b < |s| ensures s[b] != name { assert s[b] in t; }
      }
    }
  }

  /** No read fails at or before the last entry in use. */
  ghost predicate ListReads(f: seq<int>, m: nat -> bool) {
    forall j | 0 <= j < Count(f) && InUse(Entry(f, j)) :: ReadTo(m, j)
  }

  /** `names` are those of the entries that are reached, each once: all names of the directory exactly when no read
      fails
      at or before the last entry in use. */
  ghost predicate Lists(f: seq<int>, m: nat -> bool, names: seq<seq<int>>) {
    && Distinct(names)
    && (forall name :: name in names <==> exists j :: Named(f, j, name) && ReadTo(m, j))
    && (forall name :: name in names ==> name in AsMap(f))
    && ((forall name :: name in names <==> name in AsMap(f)) <==> ListReads(f, m))
  }

  lemma {:induction false} NamesAre(f: seq<int>, m: nat -> bool)
    requires Unique(f)
    ensures Lists(f, m, NamesFrom(f, m, 0))
  {
    NamesOnce(f, m, 0);
    hide SectorOf, NameOf, InUse, Entry, Count, NamesFrom, Distinct;
    var names := NamesFrom(f, m, 0);
    forall name ensures name in names <==> exists j :: Named(f, j, name) && ReadTo(m, j) { NamesReach(f, m, name); }
    forall j, name | Named(f, j, name) ensures name in AsMap(f) { MapHas(f, j, name); }
    forall name | name in AsMap(f) ensures exists j :: Named(f, j, name) { var i := MapUpToOnly(f, Count(f), name); }
    ListReadsNamed(f, m);
    hide Named, ReadTo, ListReads, AsMap;
    if forall j, name | Named(f, j, name) :: ReadTo(m, j) {
    } else {
      var j, name :| Named(f, j, name) && !ReadTo(m, j);
      NotReached(f, m, j, name);
    }
  }

  lemma {:induction false} NamesReach(f: seq<int>, m: nat -> bool, name: seq<int>)
    ensures name in NamesFrom(f, m, 0) <==> exists j :: Named(f, j, name) && ReadTo(m, j)
  {
    hide NameOf, InUse, Entry, Count, NamesFrom;
    if name in NamesFrom(f, m, 0) {
      var j := NamesGot(f, m, 0, name);
      assert ReadTo(m, j);
    }
    forall j | Named(f, j, name) && ReadTo(m, j) ensures name in NamesFrom(f, m, 0) { NamesHave(f, m, 0, j, name); }
  }

  lemma {:induction false} NotReached(f: seq<int>, m: nat -> bool, j: int, name: seq<int>)
    requires Unique(f) && Named(f, j, name) && !ReadTo(m, j)
    ensures name in AsMap(f) && forall i :: !(Named(f, i, name) && ReadTo(m, i))
  {
    hide SectorOf, NameOf, InUse, Entry, Count;
    MapHas(f, j, name);
  }

  lemma {:induction false} ListReadsNamed(f: seq<int>, m: nat -> bool)
    ensures ListReads(f, m) <==> forall j, name | Named(f, j, name) :: ReadTo(m, j)
  {
    hide SectorOf, NameOf, InUse, Entry, Count;
    if forall j, name | Named(f, j, name) :: ReadTo(m, j) {
      forall j | 0 <= j < Count(f) && InUse(Entry(f, j))
        ensures ReadTo(m, j)
      {
        assert Named(f, j, NameOf(Entry(f, j)));
      }
    }
  }

  /** From entry `from` on, `r` is the next name in use and entry `to` follows it; or entry `to` is not read, or there
      is none. */
  ghost predicate NextName(f: seq<int>, m: nat -> bool, from: nat, r: Option<seq<int>>, to: nat) {
    && from <= to <= Count(f) && (if r.None? then to == Count(f) || !m(to) else from < to)
    && NamesFrom(f, m, from) == (if r.Some? then [r.value] else []) + NamesFrom(f, m, to)
  }

  /** A struct dir: the position is that of an entry. */
  class Dir {
    const dev: Device
    const node: OnDisk
    var pos: int
    ghost var index: nat

    ghost predicate Valid()
      reads this, dev
    {
      Usable(dev.blocks, node) && pos == ENTRY_SIZE * index && index <= Count(Contents(dev.blocks, node))
    }

    /** dir_open. */
    constructor (dev: Device, node: OnDisk)
      requires Usable(dev.blocks, node)
      ensures Valid() && this.dev == dev && this.node == node && index == 0
    {
      this.dev := dev;
      this.node := node;
      pos, index := 0, 0;
    }

    /** dir_readdir: the next name in use; the position moves past it. */
    method ReadDir(m: nat -> bool) returns (r: Option<seq<int>>)
      requires Valid()
      modifies this
      ensures Valid() && NextName(Contents(dev.blocks, node), m, old(index), r, index)
    {
      hide Usable, Contents, NextName, Count;
      var e := new int[ENTRY_SIZE];
      var name, next := NextInUse(dev, node, Contents(dev.blocks, node), e, m, pos / ENTRY_SIZE);
      r := name;
      pos := ENTRY_SIZE * next;
      index := next;
    }
  }

  /** One entry read: its name, if it is in use. */
  method ReadName(dev: Device, d: OnDisk, ghost f: seq<int>, e: array<int>, i: nat, memory: bool)
    returns (more: bool, name: Option<seq<int>>)
    requires Usable(dev.blocks, d) && f == Contents(dev.blocks, d) && e.Length == ENTRY_SIZE
    modifies e
    ensures more <==> i < Count(f) && memory
    ensures more ==> name == if InUse(Entry(f, i)) then Some(NameOf(Entry(f, i))) else None
  {
    hide Usable, Contents, NameOf, InUse, Entry, Count;
    more := ReadEntry(dev, d, f, e, i, memory);
    name := if more && InUse(e[..]) then Some(NameOf(e[..])) else None;
  }

  /** The loop of dir_readdir, from entry `from` on. */
  method NextInUse(dev: Device, d: OnDisk, ghost f: seq<int>, e: array<int>, m: nat -> bool, from: nat)
    returns (r: Option<seq<int>>, i: nat)
    requires Usable(dev.blocks, d) && f == Contents(dev.blocks, d) && e.Length == ENTRY_SIZE && from <= Count(f)
    modifies e
    ensures i <= Count(f) && NextName(f, m, from, r, i)
  {
    hide Usable, Contents, NameOf, InUse, Entry, Count, Skipped, NextName;
    SkipNone(f, m, from);
    ghost var blocks := dev.blocks;
    var going := true;
    r, i := None, from;
    while going
      invariant dev.blocks == blocks && from <= i <= Count(f)
      invariant going ==> Skipped(f, m, from, i)
      invariant !going ==> NextName(f, m, from, r, i)
      decreases going, Count(f) - i
    {
      going, r := ReadName(dev, d, f, e, i, m(i));
      if going && r.Some? {
        NextFound(f, m, from, i);
        going := false;
        i := i + 1;
      } else if going {
        SkipOne(f, m, from, i);
        i := i + 1;
      } else {
        NextNone(f, m, from, i);
        r := None;
      }
    }
  }

  /** No entry from `from` to `i` is in use. */
  ghost predicate Skipped(f: seq<int>, m: nat -> bool, from: nat, i: nat) {
    from <= i <= Count(f) && NamesFrom(f, m, from) == NamesFrom(f, m, i)
  }

  lemma {:induction false} SkipNone(f: seq<int>, m: nat -> bool, from: nat)
    requires from <= Count(f)
    ensures Skipped(f, m, from, from)
  {
  }

  lemma {:induction false} SkipOne(f: seq<int>, m: nat -> bool, from: nat, i: nat)
    requires Skipped(f, m, from, i) && i < Count(f) && m(i) && !InUse(Entry(f, i))
    ensures Skipped(f, m, from, i + 1)
  {
    hide NameOf, InUse, Entry, Count;
    NamesStep(f, m, i);
  }

  lemma {:induction false} NextFound(f: seq<int>, m: nat -> bool, from: nat, i: nat)
    requires Skipped(f, m, from, i) && i < Count(f) && m(i) && InUse(Entry(f, i))
    ensures NextName(f, m, from, Some(NameOf(Entry(f, i))), i + 1)
  {
    hide NameOf, InUse, Entry, Count;
  }

  lemma {:induction false} NextNone(f: seq<int>, m: nat -> bool, from: nat, i: nat)
    requires Skipped(f, m, from, i) && (i == Count(f) || !m(i))
    ensures NextName(f, m, from, None, i)
  {
    hide NameOf, InUse, Entry, Count;
  }

  lemma {:induction false} NamesStep(f: seq<int>, m: nat -> bool, i: nat)
    requires i < Count(f) && m(i) && !InUse(Entry(f, i))
    ensures NamesFrom(f, m, i) == NamesFrom(f, m, i + 1)
  {
    hide InUse, NameOf, Entry, Count;
  }

  /** dir_readdir until it fails lists the names of the entries it reaches. */
  method ListAll(dir: Dir, m: nat -> bool) returns (names: seq<seq<int>>)
    requires dir.Valid() && dir.index == 0 && Unique(Contents(dir.dev.blocks, dir.node))
    modifies dir
    ensures Lists(Contents(dir.dev.blocks, dir.node), m, names)
  {
    hide Usable, Contents, Count, NextName, Unique, Listed, Lists, NamesFrom;
    ghost var blocks, f := dir.dev.blocks, Contents(dir.dev.blocks, dir.node);
    NamesAre(f, m);
    NoneListed(f, m);
    names := [];
    var going := true;
    while going
      invariant dir.dev.blocks == blocks && dir.Valid() && Listed(f, m, names, dir.index)
      invariant !going ==> dir.index == Count(f) || !m(dir.index)
      decreases going, Count(f) - dir.index
    {
      ghost var from := dir.index;
      var r := dir.ReadDir(m);
      NextListed(f, m, names, from, r, dir.index);
      if r.Some? {
        names := names + [r.value];
      } else {
        going := false;
      }
    }
    AllListed(f, m, names, dir.index);
  }

  /** `names` and the names from entry `i` on are all that can be listed. */
  ghost predicate Listed(f: seq<int>, m: nat -> bool, names: seq<seq<int>>, i: nat) {
    i <= Count(f) && names + NamesFrom(f, m, i) == NamesFrom(f, m, 0)
  }

  lemma {:induction false} NoneListed(f: seq<int>, m: nat -> bool)
    ensures Listed(f, m, [], 0)
  {
  }

  lemma {:induction false} NextListed(f: seq<int>, m: nat -> bool, names: seq<seq<int>>, from: nat,
                                      r: Option<seq<int>>, to: nat)
    requires Listed(f, m, names, from) && NextName(f, m, from, r, to)
    ensures Listed(f, m, if r.Some? then names + [r.value] else names, to)
    ensures if r.Some? then from < to <= Count(f) else to == Count(f) || !m(to)
  {
    hide NamesFrom, Count;
    if r.Some? { assert names + ([r.value] + NamesFrom(f, m, to)) == (names + [r.value]) + NamesFrom(f, m, to); }
  }

  lemma {:induction false} AllListed(f: seq<int>, m: nat -> bool, names: seq<seq<int>>, i: nat)
    requires Listed(f, m, names, i) && (i == Count(f) || !m(i))
    ensures names == NamesFrom(f, m, 0)
  {
    assert NamesFrom(f, m, i) == [];
  }
}
