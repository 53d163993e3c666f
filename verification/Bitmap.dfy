/**
 Bitmaps (lib/kernel/bitmap.c): an array of 32-bit words that stands for a sequence of bits. `bits` is that sequence;
 `Valid` ties it to the words, and every operation is stated on it.
 */
module Bitmap {
  import opened Basics
  import opened Words

  const ELEM_BITS: nat := 32

  /** bit_mask, of a bit within its word. */
  function Mask(k: nat): nat {
    Pow2(k)
  }

  /** The bits of a word, as bitmap_test looks at them. */
  predicate BitOf(w: nat, k: nat) {
    And(w, Mask(k)) != 0
  }

  lemma {:induction false} BitOfIsBit(w: nat, k: nat)
    ensures BitOf(w, k) == Bit(w, k)
    decreases k
  {
    if w == 0 {
      ZeroBits(k);
    } else if k == 0 {
      assert And(w / 2, 0) == 0 && And(w, 1) == w % 2;
    } else {
      BitOfIsBit(w / 2, k - 1);
    }
  }

  /** `v` is `w` with bit `k` set to `b`. */
  ghost predicate OneBit(w: nat, v: nat, k: nat, b: bool) {
    v < Pow2(32) && forall j: nat | j < 32 :: BitOf(v, j) == if j == k then b else BitOf(w, j)
  }

  function SetBit(w: nat, k: nat): nat { Or(w, Mask(k)) }

  function ClearBit(w: nat, k: nat): nat
    requires k < 32
  {
    Pow2Grows(k, 32);
    And(w, Not(Mask(k), 32))
  }

  function FlipBit(w: nat, k: nat): nat { Xor(w, Mask(k)) }

  lemma {:induction false} OneBitOps(w: nat, k: nat)
    requires k < 32 && w < Pow2(32)
    ensures OneBit(w, SetBit(w, k), k, true) && OneBit(w, ClearBit(w, k), k, false)
    ensures OneBit(w, FlipBit(w, k), k, !BitOf(w, k))
  {
    hide SetBit, ClearBit, FlipBit, BitOf, Pow2;
    OneBitFits(w, k);
    forall j: nat | j < 32
      ensures BitOf(SetBit(w, k), j) == (j == k || BitOf(w, j))
      ensures BitOf(ClearBit(w, k), j) == (j != k && BitOf(w, j))
      ensures BitOf(FlipBit(w, k), j) == if j == k then !BitOf(w, k) else BitOf(w, j)
    {
      SetBitAt(w, k, j);
      ClearBitAt(w, k, j);
      FlipBitAt(w, k, j);
    }
  }

  lemma {:induction false} OneBitFits(w: nat, k: nat)
    requires k < 32 && w < Pow2(32)
    ensures SetBit(w, k) < Pow2(32) && ClearBit(w, k) < Pow2(32) && FlipBit(w, k) < Pow2(32)
  {
    hide And, Or, Xor, Pow2;
    Pow2Grows(k, 32);
    Fits(w, Mask(k), 32);
    Fits(w, Not(Mask(k), 32), 32);
  }

  lemma {:induction false} SetBitAt(w: nat, k: nat, j: nat)
    ensures BitOf(SetBit(w, k), j) == (j == k || BitOf(w, j))
  {
    hide Or, Bit, BitOf, Pow2;
    BitOfIsBit(w, j);
    BitOfIsBit(SetBit(w, k), j);
    Pow2Bit(k, j);
    OrBit(w, Mask(k), j);
  }

  lemma {:induction false} ClearBitAt(w: nat, k: nat, j: nat)
    requires k < 32 && j < 32
    ensures BitOf(ClearBit(w, k), j) == (j != k && BitOf(w, j))
  {
    Pow2Grows(k, 32);
    hide And, Bit, BitOf, Pow2, Not;
    BitOfIsBit(w, j);
    BitOfIsBit(ClearBit(w, k), j);
    Pow2Bit(k, j);
    NotBit(Mask(k), 32, j);
    AndBit(w, Not(Mask(k), 32), j);
  }

  lemma {:induction false} FlipBitAt(w: nat, k: nat, j: nat)
    ensures BitOf(FlipBit(w, k), j) == if j == k then !BitOf(w, k) else BitOf(w, j)
  {
    hide Xor, Bit, BitOf, Pow2;
    BitOfIsBit(w, j);
    BitOfIsBit(w, k);
    BitOfIsBit(FlipBit(w, k), j);
    Pow2Bit(k, j);
    XorBit(w, Mask(k), j);
  }

  /** elem_idx. */
  function Elem(i: nat): nat {
    i / ELEM_BITS
  }

  function Offset(i: nat): (k: nat)
    ensures k < 32
  {
    i % ELEM_BITS
  }

  /** elem_cnt. */
  function ElemCnt(bitCnt: nat): nat {
    (bitCnt + ELEM_BITS - 1) / ELEM_BITS
  }

  lemma {:induction false} SamePlace(i: nat, j: nat)
    requires Elem(i) == Elem(j) && Offset(i) == Offset(j)
    ensures i == j
  {
  }

  /** Bits `start..start + cnt` are all `value`. */
  predicate AllAre(bits: seq<bool>, start: nat, cnt: nat, value: bool)
    requires start + cnt <= |bits|
  {
    forall i | start <= i < start + cnt :: bits[i] == value
  }

  /** `i` is where the first group of `cnt` bits equal to `value` at or after `start` begins. */
  ghost predicate FirstGroup(bits: seq<bool>, start: nat, cnt: nat, value: bool, i: nat) {
    && start <= i && i + cnt <= |bits| && AllAre(bits, i, cnt, value)
    && forall k | start <= k < i :: !AllAre(bits, k, cnt, value)
  }

  ghost predicate NoGroup(bits: seq<bool>, start: nat, cnt: nat, value: bool) {
    forall k | start <= k && k + cnt <= |bits| :: !AllAre(bits, k, cnt, value)
  }

  function Filled(bits: seq<bool>, start: nat, cnt: nat, value: bool): (r: seq<bool>)
    requires start + cnt <= |bits|
    ensures |r| == |bits|
  {
    bits[..start] + seq(cnt, _ => value) + bits[start + cnt..]
  }

  lemma {:induction false} FilledAt(bits: seq<bool>, start: nat, cnt: nat, value: bool)
    requires start + cnt <= |bits|
    ensures forall i: nat | i < |bits| ::
      Filled(bits, start, cnt, value)[i] == if start <= i < start + cnt then value else bits[i]
  {
  }

  lemma {:induction false} FillOne(bits: seq<bool>, start: nat, i: nat, value: bool)
    requires start + i < |bits|
    ensures Filled(bits, start, i, value)[start + i := value] == Filled(bits, start, i + 1, value)
  {
  }

  lemma {:induction false} FillBack(bits: seq<bool>, start: nat, cnt: nat)
    requires start + cnt <= |bits| && AllAre(bits, start, cnt, false)
    ensures Filled(Filled(bits, start, cnt, true), start, cnt, false) == bits
  {
    FilledAt(bits, start, cnt, true);
    FilledAt(Filled(bits, start, cnt, true), start, cnt, false);
  }

  function Count(bits: seq<bool>, value: bool): nat {
    if bits == [] then 0 else (if bits[0] == value then 1 else 0) + Count(bits[1..], value)
  }

  /** The places of the bits with a value. */
  function Places(bits: seq<bool>, value: bool): set<int> {
    set i | 0 <= i < |bits| && bits[i] == value
  }

  lemma {:induction false} CountIs(bits: seq<bool>, value: bool)
    ensures Count(bits, value) == |Places(bits, value)|
  {
    if bits == [] {
      assert Places(bits, value) == {};
    } else {
      var last := |bits| - 1;
      CountLast(bits[..last], bits[last], value);
      assert bits == bits[..last] + [bits[last]];
      CountIs(bits[..last], value);
      assert Places(bits, value) == Places(bits[..last], value) + if bits[last] == value then {last} else {};
    }
  }

  lemma {:induction false} CountLast(bits: seq<bool>, b: bool, value: bool)
    ensures Count(bits + [b], value) == Count(bits, value) + if b == value then 1 else 0
  {
    if bits != [] {
      assert (bits + [b])[1..] == bits[1..] + [b];
      CountLast(bits[1..], b, value);
    }
  }

  /** As few words as have room for the bits. */
  lemma {:induction false} ElemCntIs(bitCnt: nat)
    ensures ELEM_BITS * (ElemCnt(bitCnt) - 1) < bitCnt <= ELEM_BITS * ElemCnt(bitCnt)
  {
  }

  /** The words stand for the bits. */
  ghost predicate Stands(words: seq<nat>, bits: seq<bool>) {
    && |words| == ElemCnt(|bits|) && (forall k | 0 <= k < |words| :: words[k] < Pow2(32))
    && (forall i: nat | i < |bits| :: Elem(i) < |words| && bits[i] == BitOf(words[Elem(i)], Offset(i)))
  }

  lemma {:induction false} StandsAt(words: seq<nat>, bits: seq<bool>, i: nat)
    requires Stands(words, bits) && i < |bits|
    ensures Elem(i) < |words| && words[Elem(i)] < Pow2(32) && bits[i] == BitOf(words[Elem(i)], Offset(i))
  {
    hide Pow2, BitOf, Elem, Offset;
  }

  lemma {:induction false} StandsClear(n: nat)
    ensures Stands(seq(ElemCnt(n), _ => 0), seq(n, _ => false))
  {
    hide Pow2;
    forall i: nat | i < n ensures Elem(i) < ElemCnt(n) && !BitOf(0, Offset(i)) {}
  }

  /** One bit of one word changed changes that bit. */
  lemma {:induction false} StandsStill(words: seq<nat>, bits: seq<bool>, i: nat, v: nat, b: bool)
    requires Stands(words, bits) && i < |bits| && Elem(i) < |words| && OneBit(words[Elem(i)], v, Offset(i), b)
    ensures Stands(words[Elem(i) := v], bits[i := b])
  {
    hide Pow2, BitOf, Elem, Offset, ElemCnt;
    forall j: nat | Elem(i) == Elem(j) && Offset(i) == Offset(j) ensures i == j { SamePlace(i, j); }
  }

  class Map {
    const bitCnt: nat
    const words: array<nat>
    ghost var bits: seq<bool>

    ghost predicate Valid()
      reads this, words
    {
      |bits| == bitCnt && Stands(words[..], bits)
    }

    /** bitmap_create: all bits false. */
    constructor (bitCnt: nat)
      ensures Valid() && fresh(words) && bits == seq(bitCnt, _ => false) && this.bitCnt == bitCnt
    {
      this.bitCnt := bitCnt;
      words := new nat[ElemCnt(bitCnt)](_ => 0);
      bits := seq(bitCnt, _ => false);
      new;
      hide Stands;
      assert words[..] == seq(ElemCnt(bitCnt), _ => 0);
      StandsClear(bitCnt);
    }

    method Mark(i: nat)
      requires Valid() && i < bitCnt
      modifies this`bits, words
      ensures Valid() && bits == old(bits)[i := true]
    {
      hide Stands, SetBit, ClearBit, FlipBit, BitOf, OneBit, Elem, Offset, Pow2;
      StandsAt(words[..], bits, i);
      OneBitOps(words[Elem(i)], Offset(i));
      StandsStill(words[..], bits, i, SetBit(words[Elem(i)], Offset(i)), true);
      words[Elem(i)] := SetBit(words[Elem(i)], Offset(i));
      bits := bits[i := true];
      assert words[..] == old(words[..])[Elem(i) := words[Elem(i)]];
    }

    method Reset(i: nat)
      requires Valid() && i < bitCnt
      modifies this`bits, words
      ensures Valid() && bits == old(bits)[i := false]
    {
      hide Stands, SetBit, ClearBit, FlipBit, BitOf, OneBit, Elem, Offset, Pow2;
      StandsAt(words[..], bits, i);
      OneBitOps(words[Elem(i)], Offset(i));
      StandsStill(words[..], bits, i, ClearBit(words[Elem(i)], Offset(i)), false);
      words[Elem(i)] := ClearBit(words[Elem(i)], Offset(i));
      bits := bits[i := false];
      assert words[..] == old(words[..])[Elem(i) := words[Elem(i)]];
    }

    method Flip(i: nat)
      requires Valid() && i < bitCnt
      modifies this`bits, words
      ensures Valid() && bits == old(bits)[i := !old(bits)[i]]
    {
      hide Stands, SetBit, ClearBit, FlipBit, BitOf, OneBit, Elem, Offset, Pow2;
      StandsAt(words[..], bits, i);
      OneBitOps(words[Elem(i)], Offset(i));
      StandsStill(words[..], bits, i, FlipBit(words[Elem(i)], Offset(i)), !bits[i]);
      words[Elem(i)] := FlipBit(words[Elem(i)], Offset(i));
      bits := bits[i := !bits[i]];
      assert words[..] == old(words[..])[Elem(i) := words[Elem(i)]];
    }

    method Test(i: nat) returns (b: bool)
      requires Valid() && i < bitCnt
      ensures b == bits[i]
    {
      StandsAt(words[..], bits, i);
      b := And(words[Elem(i)], Mask(Offset(i))) != 0;
    }

    /** bitmap_set_multiple. */
    method SetMultiple(start: nat, cnt: nat, value: bool)
      requires Valid() && start + cnt <= bitCnt
      modifies this`bits, words
      ensures Valid() && bits == Filled(old(bits), start, cnt, value)
    {
      hide Stands;
      for i := 0 to cnt
        invariant Valid() && bits == Filled(old(bits), start, i, value)
      {
        FillOne(old(bits), start, i, value);
        if value { Mark(start + i); } else { Reset(start + i); }
      }
    }

    /** bitmap_contains. */
    method Contains(start: nat, cnt: nat, value: bool) returns (b: bool)
      requires Valid() && start + cnt <= bitCnt
      ensures b <==> !AllAre(bits, start, cnt, !value)
    {
      hide Stands;
      for i := 0 to cnt
        invariant AllAre(bits, start, i, !value)
      {
        var t := Test(start + i);
        if t == value {
          return true;
        }
      }
      return false;
    }

    /** bitmap_count. */
    method CountBits(start: nat, cnt: nat, value: bool) returns (n: nat)
      requires Valid() && start + cnt <= bitCnt
      ensures n == Count(bits[start..start + cnt], value) == |Places(bits[start..start + cnt], value)|
    {
      hide Stands;
      CountIs(bits[start..start + cnt], value);
      n := 0;
      for i := 0 to cnt
        invariant n + Count(bits[start + i..start + cnt], value) == Count(bits[start..start + cnt], value)
      {
        var t := Test(start + i);
        assert bits[start + i..start + cnt][1..] == bits[start + i + 1..start + cnt];
        if t == value {
          n := n + 1;
        }
      }
    }

    /** bitmap_scan; `None` is BITMAP_ERROR. */
    method Scan(start: nat, cnt: nat, value: bool) returns (r: Option<nat>)
      requires Valid() && start <= bitCnt
      ensures r.Some? ==> FirstGroup(bits, start, cnt, value, r.value)
      ensures r.None? ==> NoGroup(bits, start, cnt, value)
    {
      hide Stands;
      if cnt <= bitCnt {
        var i := start;
        while i <= bitCnt - cnt
          invariant start <= i
          invariant forall k | start <= k < i && k + cnt <= bitCnt :: !AllAre(bits, k, cnt, value)
        {
          var c := Contains(i, cnt, !value);
          if !c {
            return Some(i);
          }
          i := i + 1;
        }
      }
      return None;
    }

    /** bitmap_scan_and_flip. */
    method ScanAndFlip(start: nat, cnt: nat, value: bool) returns (r: Option<nat>)
      requires Valid() && start <= bitCnt
      modifies this`bits, words
      ensures Valid()
      ensures r.Some? ==>
        FirstGroup(old(bits), start, cnt, value, r.value) && bits == Filled(old(bits), r.value, cnt, !value)
      ensures r.None? ==> NoGroup(old(bits), start, cnt, value) && bits == old(bits)
    {
      hide Stands;
      r := Scan(start, cnt, value);
      if r.Some? {
        SetMultiple(r.value, cnt, !value);
      }
    }
  }
}
