/**
 The chained hash table (lib/kernel/hash.c): an array of buckets, each a list, that stands for a set of elements no two
 of which are equal under the comparison. Whether memory for new buckets could be had is an input of each call.
 */
module HashTable {
  import opened Basics
  import opened Words

  // ---------------------------------------------------------------- powers of two

  /** turn_off_least_1bit. */
  function TurnOff(x: nat): nat
    requires x > 0
  {
    And(x, x - 1)
  }

  lemma {:induction false} AndSelf(x: nat)
    ensures And(x, x) == x
  {
    if x > 0 { AndSelf(x / 2); }
  }

  lemma {:induction false} TurnOffStep(x: nat)
    requires x > 0
    ensures x % 2 == 1 ==> TurnOff(x) == x - 1
    ensures x % 2 == 0 ==> x / 2 > 0 && TurnOff(x) == 2 * TurnOff(x / 2)
  {
    if x % 2 == 1 {
      AndSelf(x / 2);
      assert (x - 1) / 2 == x / 2;
    } else {
      assert (x - 1) / 2 == x / 2 - 1;
    }
  }

  /** is_power_of_2 is exact, and turning bits off keeps the highest one until it is alone. */
  lemma {:induction false} TurnOffKeepsTop(x: nat, k: nat)
    requires Pow2(k) <= x < 2 * Pow2(k)
    ensures TurnOff(x) < x
    ensures TurnOff(x) == 0 <==> x == Pow2(k)
    ensures TurnOff(x) != 0 ==> Pow2(k) <= TurnOff(x)
    decreases k
  {
    hide And;
    TurnOffStep(x);
    if k > 0 && x % 2 == 0 { TurnOffKeepsTop(x / 2, k - 1); }
  }

  lemma {:induction false} TopBit(x: nat) returns (k: nat)
    requires x > 0
    ensures Pow2(k) <= x < 2 * Pow2(k)
  {
    if x == 1 {
      k := 0;
    } else {
      k := TopBit(x / 2);
      k := k + 1;
    }
  }

  /** Masking with one less than a power of two is reduction modulo that power. */
  lemma {:induction false} MaskIsMod(x: nat, k: nat)
    ensures And(x, Pow2(k) - 1) == x % Pow2(k)
    decreases k
  {
    hide And;
    if k == 0 {
      MaskNone(x);
    } else {
      var p := Pow2(k - 1);
      MaskIsMod(x / 2, k - 1);
      AndOdd(x, p);
      ModTwice(x, p);
    }
  }

  lemma {:induction false} MaskNone(x: nat)
    ensures And(x, 0) == x % 1 == 0
  {
  }

  lemma {:induction false} AndOdd(x: nat, p: nat)
    requires p > 0
    ensures And(x, 2 * p - 1) == 2 * And(x / 2, p - 1) + x % 2
  {
    assert (2 * p - 1) / 2 == p - 1 && (2 * p - 1) % 2 == 1;
  }

  lemma {:induction false} ModTwice(x: nat, p: nat)
    requires p > 0
    ensures x % (2 * p) == 2 * ((x / 2) % p) + x % 2
  {
    var q, r := (x / 2) / p, (x / 2) % p;
    assert x / 2 == q * p + r;
    assert x == q * (2 * p) + (2 * r + x % 2);
    ModIs(x, 2 * p, q, 2 * r + x % 2);
  }

  lemma {:induction false} ModIs(x: int, d: int, q: int, r: int)
    requires d > 0 && x == q * d + r && 0 <= r < d
    ensures x % d == r
  {
    var e := x / d - q;
    assert x == (x / d) * d + x % d;
    assert e * d == r - x % d;
    if e >= 1 { MulAtLeast(e, d); }
    if e <= -1 { MulAtLeast(-e, d); }
  }

  lemma {:induction false} MulAtLeast(e: int, d: int)
    requires e >= 1 && d > 0
    ensures e * d >= d && (-e) * d <= -d
  {
  }

  /** The number of buckets rehash aims for: the largest power of two not above half the elements, and at least four. */
  ghost predicate Ideal(elemCnt: nat, n: nat) {
    var want := if elemCnt / 2 < 4 then 4 else elemCnt / 2;
    (exists k: nat :: n == Pow2(k)) && n <= want < 2 * n
  }

  method IdealBuckets(elemCnt: nat) returns (n: nat)
    ensures Ideal(elemCnt, n) && n >= 4
  {
    n := elemCnt / 2;
    if n < 4 {
      n := 4;
    }
    ghost var want := n;
    ghost var k := TopBit(n);
    hide TurnOff;
    while TurnOff(n) != 0
      invariant Pow2(k) <= n <= want < 2 * Pow2(k)
      decreases n
    {
      TurnOffKeepsTop(n, k);
      n := TurnOff(n);
    }
    TurnOffKeepsTop(n, k);
    if Pow2(k) < 4 { SmallPow2(k); }
  }

  lemma {:induction false} SmallPow2(k: nat)
    ensures Pow2(k) < 4 ==> Pow2(k) <= 2
  {
  }

  /** A table that reached its ideal size has fewer than four elements to a bucket. */
  lemma {:induction false} IdealLoad(elemCnt: nat, n: nat)
    requires Ideal(elemCnt, n)
    ensures n >= 4 && elemCnt < 4 * n && (elemCnt >= 8 ==> 2 * n <= elemCnt)
  {
    var k: nat :| n == Pow2(k);
    SmallPow2(k);
  }

  // ---------------------------------------------------------------- buckets

  datatype Keys<!T> = Keys(hash: T -> nat, less: (T, T) -> bool) {
    predicate Equal(a: T, b: T) {
      !less(a, b) && !less(b, a)
    }
  }

  /** `less` is a strict weak order, and elements that it cannot tell apart hash alike. */
  ghost predicate Consistent<T(!new)>(k: Keys<T>) {
    && (forall a :: !k.less(a, a))
    && (forall a, b, c :: k.Equal(a, b) && k.Equal(b, c) ==> k.Equal(a, c))
    && (forall a, b :: k.Equal(a, b) ==> k.hash(a) == k.hash(b))
  }

  /** The index that find_bucket computes. */
  function IndexOf<T>(k: Keys<T>, n: nat, e: T): nat
    requires n > 0
  {
    And(k.hash(e), n - 1)
  }

  lemma {:induction false} IndexInRange<T>(k: Keys<T>, n: nat, e: T)
    requires exists i: nat :: n == Pow2(i)
    ensures IndexOf(k, n, e) < n
  {
    var i: nat :| n == Pow2(i);
    MaskIsMod(k.hash(e), i);
  }

  ghost predicate Unique<T>(k: Keys<T>, s: seq<T>) {
    forall i, j | 0 <= i < j < |s| :: !k.Equal(s[i], s[j])
  }

  /** The buckets hold exactly the elements of `elems`, each in the bucket of its hash, no two equal. */
  ghost predicate Holds<T(!new)>(k: Keys<T>, buckets: seq<seq<T>>, elems: set<T>) {
    && (exists i: nat :: |buckets| == Pow2(i))
    && (forall e | e in elems :: IndexOf(k, |buckets|, e) < |buckets| && e in buckets[IndexOf(k, |buckets|, e)])
    && (forall b, e | 0 <= b < |buckets| && e in buckets[b] :: e in elems && IndexOf(k, |buckets|, e) == b)
    && (forall b | 0 <= b < |buckets| :: Unique(k, buckets[b]))
  }

  /** No element of `elems` is equal to `e`. */
  ghost predicate Absent<T(!new)>(k: Keys<T>, elems: set<T>, e: T) {
    forall x | x in elems :: !k.Equal(x, e)
  }

  /** The set that a table stands for has no two equal elements. */
  lemma {:induction false} NoTwoEqual<T(!new)>(k: Keys<T>, buckets: seq<seq<T>>, elems: set<T>, a: T, b: T)
    requires Consistent(k) && Holds(k, buckets, elems) && a in elems && b in elems && k.Equal(a, b)
    ensures a == b
  {
    var s := buckets[IndexOf(k, |buckets|, a)];
    assert k.hash(a) == k.hash(b);
    var i: int :| 0 <= i < |s| && s[i] == a;
    var j: int :| 0 <= j < |s| && s[j] == b;
    assert k.Equal(b, a);
  }

  /** insert_elem, and the move of one element in rehash. */
  lemma {:induction false} PushElem<T(!new)>(k: Keys<T>, buckets: seq<seq<T>>, elems: set<T>, e: T)
    requires Holds(k, buckets, elems) && Absent(k, elems, e)
    ensures var i := IndexOf(k, |buckets|, e);
      i < |buckets| && Holds(k, buckets[i := [e] + buckets[i]], elems + {e})
  {
    IndexInRange(k, |buckets|, e);
    hide IndexOf;
    var i := IndexOf(k, |buckets|, e);
    var s := [e] + buckets[i];
    var now := buckets[i := s];
    assert forall x :: x in s <==> x == e || x in buckets[i];
    forall a, b | 0 <= a < b < |s| ensures !k.Equal(s[a], s[b]) {
      if a == 0 {
        assert s[b] in buckets[i] && !k.Equal(s[b], e);
      } else {
        assert s[a] == buckets[i][a - 1] && s[b] == buckets[i][b - 1];
      }
    }
    assert Unique(k, s);
  }

  /** remove_elem. */
  lemma {:induction false} DropElem<T(!new)>(k: Keys<T>, buckets: seq<seq<T>>, elems: set<T>, b: nat, i: nat)
    requires Consistent(k) && Holds(k, buckets, elems) && b < |buckets| && i < |buckets[b]|
    ensures Holds(k, buckets[b := buckets[b][..i] + buckets[b][i + 1..]], elems - {buckets[b][i]})
  {
    hide IndexOf;
    var s, e := buckets[b], buckets[b][i];
    var t := s[..i] + s[i + 1..];
    forall j | 0 <= j < |t| ensures t[j] == s[if j < i then j else j + 1] && t[j] != e {
      assert k.Equal(e, e);
    }
    forall x | x in t ensures x in s && x != e {
      var j: int :| 0 <= j < |t| && t[j] == x;
    }
    forall x | x in s && x != e ensures x in t {
      var j: int :| 0 <= j < |s| && s[j] == x;
      assert t[if j < i then j else j - 1] == x;
    }
    assert Unique(k, t);
    var now := buckets[b := t];
    assert e in s && IndexOf(k, |buckets|, e) == b;
    forall x | x in elems - {e} ensures IndexOf(k, |now|, x) < |now| && x in now[IndexOf(k, |now|, x)] {}
    forall c, x | 0 <= c < |now| && x in now[c] ensures x in elems - {e} && IndexOf(k, |now|, x) == c {
      assert x in buckets[c];
    }
  }

  lemma {:induction false} EmptyHolds<T(!new)>(k: Keys<T>, n: nat)
    requires exists i: nat :: n == Pow2(i)
    ensures Holds(k, seq(n, _ => []), {})
  {
    var buckets: seq<seq<T>> := seq(n, _ => []);
    assert |buckets| == n;
  }

  /** The elements that rehash has moved once it reached element `j` of old bucket `i`. */
  ghost function Moved<T(!new)>(k: Keys<T>, from: seq<seq<T>>, elems: set<T>, i: nat, j: nat): set<T>
    requires |from| > 0 && i <= |from| && (i < |from| ==> j <= |from[i]|)
  {
    set e | e in elems && (IndexOf(k, |from|, e) < i || (i < |from| && IndexOf(k, |from|, e) == i && e in from[i][..j]))
  }

  lemma {:induction false} MoveOne<T(!new)>(k: Keys<T>, from: seq<seq<T>>, elems: set<T>, i: nat, j: nat)
    requires Consistent(k) && Holds(k, from, elems) && |from| > 0 && i < |from| && j < |from[i]|
    ensures Moved(k, from, elems, i, j + 1) == Moved(k, from, elems, i, j) + {from[i][j]}
    ensures Absent(k, Moved(k, from, elems, i, j), from[i][j])
  {
    hide IndexOf;
    var e := from[i][j];
    assert e in from[i];
    assert from[i][..j + 1] == from[i][..j] + [e];
    assert k.Equal(e, e);
    forall a | 0 <= a < j ensures from[i][a] != e { assert !k.Equal(from[i][a], from[i][j]); }
    forall x | x in Moved(k, from, elems, i, j) ensures !k.Equal(x, e) {
      if k.Equal(x, e) { NoTwoEqual(k, from, elems, x, e); }
    }
  }

  lemma {:induction false} MoveBucket<T(!new)>(k: Keys<T>, from: seq<seq<T>>, elems: set<T>, i: nat)
    requires Holds(k, from, elems) && |from| > 0 && i < |from|
    ensures Moved(k, from, elems, i, |from[i]|) == Moved(k, from, elems, i + 1, 0)
    ensures Moved(k, from, elems, 0, 0) == {} && Moved(k, from, elems, |from|, 0) == elems
  {
    hide IndexOf;
    assert from[i][..|from[i]|] == from[i];
  }

  class Table<T(!new)> {
    const keys: Keys<T>
    var buckets: seq<seq<T>>
    var elemCnt: nat
    ghost var elems: set<T>

    ghost predicate Valid()
      reads this
    {
      Consistent(keys) && Holds(keys, buckets, elems) && elemCnt == |elems|
    }

    /** hash_init. */
    constructor (keys: Keys<T>)
      requires Consistent(keys)
      ensures Valid() && elems == {} && this.keys == keys && |buckets| == 4
    {
      assert 4 == Pow2(2) by { assert Pow2(1) == 2; }
      EmptyHolds(keys, 4);
      this.keys := keys;
      buckets := seq(4, _ => []);
      elemCnt := 0;
      elems := {};
    }

    /** find_elem in the bucket of `e`: the place of an element equal to `e`. */
    method FindIn(b: nat, e: T) returns (i: nat, found: bool)
      requires Valid() && b < |buckets| && b == IndexOf(keys, |buckets|, e)
      ensures found ==> i < |buckets[b]| && keys.Equal(buckets[b][i], e) && buckets[b][i] in elems
      ensures !found ==> Absent(keys, elems, e)
    {
      i := 0;
      while i < |buckets[b]|
        invariant i <= |buckets[b]| && forall j | 0 <= j < i :: !keys.Equal(buckets[b][j], e)
      {
        if !keys.less(buckets[b][i], e) && !keys.less(e, buckets[b][i]) {
          return i, true;
        }
        i := i + 1;
      }
      found := false;
      forall x | x in elems ensures !keys.Equal(x, e) {
        assert keys.Equal(x, e) ==> keys.hash(x) == keys.hash(e);
      }
    }

    /** rehash: the same elements, each in the bucket of its hash under the new count. */
    method Rehash(memory: bool)
      requires Valid()
      modifies this`buckets
      ensures Valid()
      ensures memory ==> Ideal(elemCnt, |buckets|)
      ensures !memory ==> buckets == old(buckets)
    {
      var n := IdealBuckets(elemCnt);
      if n == |buckets| {
        return;
      }
      if !memory {
        return;
      }
      var was := buckets;
      EmptyHolds(keys, n);
      buckets := seq(n, _ => []);
      MoveBucket(keys, was, elems, 0);
      for i := 0 to |was|
        invariant |buckets| == n && Holds(keys, buckets, Moved(keys, was, elems, i, 0))
      {
        for j := 0 to |was[i]|
          invariant |buckets| == n && Holds(keys, buckets, Moved(keys, was, elems, i, j))
        {
          MoveOne(keys, was, elems, i, j);
          PushElem(keys, buckets, Moved(keys, was, elems, i, j), was[i][j]);
          var b := IndexOf(keys, |buckets|, was[i][j]);
          buckets := buckets[b := [was[i][j]] + buckets[b]];
        }
        MoveBucket(keys, was, elems, i);
      }
    }

    /** hash_find. */
    method Find(e: T) returns (r: Option<T>)
      requires Valid()
      ensures r.Some? ==> r.value in elems && keys.Equal(r.value, e)
      ensures r.None? <==> Absent(keys, elems, e)
    {
      IndexInRange(keys, |buckets|, e);
      var b := IndexOf(keys, |buckets|, e);
      var i, found := FindIn(b, e);
      r := if found then Some(buckets[b][i]) else None;
    }

    /** insert_elem. */
    method InsertElem(b: nat, e: T)
      requires Valid() && |buckets| > 0 && b == IndexOf(keys, |buckets|, e) && Absent(keys, elems, e)
      modifies this
      ensures Valid() && elems == old(elems) + {e}
    {
      hide Consistent, Holds, IndexOf;
      PushElem(keys, buckets, elems, e);
      NotIn(keys, elems, e);
      elemCnt := elemCnt + 1;
      buckets := buckets[b := [e] + buckets[b]];
      elems := elems + {e};
    }

    /** hash_insert. */
    method Insert(e: T, memory: bool) returns (r: Option<T>)
      requires Valid()
      modifies this
      ensures Valid()
      ensures r.Some? ==> r.value in old(elems) && keys.Equal(r.value, e) && elems == old(elems)
      ensures r.None? ==> Absent(keys, old(elems), e) && elems == old(elems) + {e}
      ensures memory ==> Ideal(elemCnt, |buckets|)
    {
      IndexInRange(keys, |buckets|, e);
      hide Consistent, Holds, IndexOf, Ideal;
      var b := IndexOf(keys, |buckets|, e);
      var i, found := FindIn(b, e);
      r := None;
      if found {
        r := Some(buckets[b][i]);
      } else {
        InsertElem(b, e);
      }
      Rehash(memory);
    }

    /** hash_delete. */
    method Delete(e: T, memory: bool) returns (r: Option<T>)
      requires Valid()
      modifies this
      ensures Valid()
      ensures r.Some? ==> r.value in old(elems) && keys.Equal(r.value, e) && elems == old(elems) - {r.value}
      ensures r.None? ==> Absent(keys, old(elems), e) && elems == old(elems)
      ensures r.Some? && memory ==> Ideal(elemCnt, |buckets|)
    {
      IndexInRange(keys, |buckets|, e);
      hide Consistent, IndexOf, Ideal;
      var b := IndexOf(keys, |buckets|, e);
      var i, found := FindIn(b, e);
      if !found {
        return None;
      }
      r := Some(buckets[b][i]);
      RemoveAt(b, i);
      Rehash(memory);
    }

    /** remove_elem. */
    method RemoveAt(b: nat, i: nat)
      requires Valid() && b < |buckets| && i < |buckets[b]| && buckets[b][i] in elems
      modifies this
      ensures Valid() && elems == old(elems) - {old(buckets)[b][i]} && |buckets| == |old(buckets)|
    {
      hide IndexOf;
      DropElem(keys, buckets, elems, b, i);
      elemCnt := elemCnt - 1;
      elems := elems - {buckets[b][i]};
      buckets := buckets[b := buckets[b][..i] + buckets[b][i + 1..]];
    }

    /** hash_replace. */
    method Replace(e: T, memory: bool) returns (r: Option<T>)
      requires Valid()
      modifies this
      ensures Valid()
      ensures r.Some? ==> r.value in old(elems) && keys.Equal(r.value, e) && elems == old(elems) - {r.value} + {e}
      ensures r.None? ==> Absent(keys, old(elems), e) && elems == old(elems) + {e}
      ensures memory ==> Ideal(elemCnt, |buckets|)
    {
      IndexInRange(keys, |buckets|, e);
      hide Consistent, Holds, IndexOf, Ideal;
      var b := IndexOf(keys, |buckets|, e);
      var i, found := FindIn(b, e);
      r := None;
      if found {
        r := Some(buckets[b][i]);
        OthersAbsent(keys, buckets, elems, buckets[b][i], e);
        RemoveAt(b, i);
      }
      InsertElem(b, e);
      Rehash(memory);
    }
  }

  lemma {:induction false} NotIn<T(!new)>(k: Keys<T>, elems: set<T>, e: T)
    requires Consistent(k) && Absent(k, elems, e)
    ensures e !in elems
  {
    assert k.Equal(e, e);
  }

  /** Once the element equal to `e` is out, nothing equal to `e` is left. */
  lemma {:induction false} OthersAbsent<T(!new)>(k: Keys<T>, buckets: seq<seq<T>>, elems: set<T>, x: T, e: T)
    requires Consistent(k) && Holds(k, buckets, elems) && x in elems && k.Equal(x, e)
    ensures Absent(k, elems - {x}, e)
  {
    forall y | y in elems - {x} ensures !k.Equal(y, e) {
      assert k.Equal(e, x);
      if k.Equal(y, e) { NoTwoEqual(k, buckets, elems, y, x); }
    }
  }

  // ---------------------------------------------------------------- iteration

  /** The elements of the first `n` buckets, in order. */
  ghost function Flat<T>(buckets: seq<seq<T>>, n: nat): seq<T>
    requires n <= |buckets|
  {
    if n == 0 then [] else Flat(buckets, n - 1) + buckets[n - 1]
  }

  lemma {:induction false} FlatPrefix<T>(buckets: seq<seq<T>>, n: nat, m: nat)
    requires n <= m <= |buckets|
    ensures |Flat(buckets, n)| <= |Flat(buckets, m)| && Flat(buckets, m)[..|Flat(buckets, n)|] == Flat(buckets, n)
    decreases m
  {
    if n < m {
      FlatPrefix(buckets, n, m - 1);
    }
  }

  /** Element `p` of bucket `b` is where the buckets before it end, plus `p`. */
  lemma {:induction false} FlatAt<T>(buckets: seq<seq<T>>, b: nat, p: nat)
    requires b < |buckets| && p < |buckets[b]|
    ensures var i := |Flat(buckets, b)| + p;
      i < |Flat(buckets, |buckets|)| && Flat(buckets, |buckets|)[i] == buckets[b][p]
  {
    FlatPrefix(buckets, b + 1, |buckets|);
    var all, i := Flat(buckets, |buckets|), |Flat(buckets, b)| + p;
    assert all[i] == all[..|Flat(buckets, b + 1)|][i];
  }

  /** The buckets, end to end, list each element of the table once. */
  lemma {:induction false} FlatLists<T(!new)>(k: Keys<T>, buckets: seq<seq<T>>, elems: set<T>, n: nat)
    requires Consistent(k) && Holds(k, buckets, elems) && n <= |buckets|
    ensures Distinct(Flat(buckets, n))
    ensures forall e :: e in Flat(buckets, n) <==> e in elems && IndexOf(k, |buckets|, e) < n
    decreases n
  {
    hide IndexOf;
    if n > 0 {
      FlatLists(k, buckets, elems, n - 1);
      var s, t := Flat(buckets, n - 1), buckets[n - 1];
      forall e | e in t ensures k.Equal(e, e) && e !in s {}
      forall i, j | 0 <= i < j < |s + t| ensures (s + t)[i] != (s + t)[j] {
        if i >= |s| {
          assert !k.Equal(t[i - |s|], t[j - |s|]);
        } else if j >= |s| {
          assert s[i] in s && t[j - |s|] in t;
        }
      }
    }
  }

  lemma {:induction false} ListSize<T>(s: seq<T>, elems: set<T>)
    requires Distinct(s) && forall e :: e in s <==> e in elems
    ensures |s| == |elems|
    decreases s
  {
    if s == [] {
      assert elems == {};
    } else {
      var rest := elems - {s[0]};
      forall e ensures e in s[1..] <==> e in rest {
        assert e in s <==> e == s[0] || e in s[1..];
      }
      ListSize(s[1..], rest);
    }
  }

  /** A hash_iterator. */
  class Cursor<T(!new)> {
    const table: Table<T>
    var bucket: nat
    var pos: int          // the place of `elem` in its bucket; -1 at the list head, before the first
    var ended: bool       // `elem` is a null pointer

    ghost var all: seq<T> // the elements of the table in bucket order
    ghost var seen: nat   // how many of them hash_next has returned

    ghost predicate Valid()
      reads this, table
    {
      && table.Valid() && |table.buckets| > 0 && all == Flat(table.buckets, |table.buckets|) && seen <= |all|
      && (!ended ==>
            && bucket < |table.buckets| && -1 <= pos < |table.buckets[bucket]|
            && seen == |Flat(table.buckets, bucket)| + pos + 1)
    }

    /** hash_first. */
    constructor (table: Table<T>)
      requires table.Valid() && |table.buckets| > 0
      ensures Valid() && this.table == table && !ended && seen == 0 && all == Flat(table.buckets, |table.buckets|)
    {
      this.table := table;
      bucket, pos, ended := 0, -1, false;
      all, seen := Flat(table.buckets, |table.buckets|), 0;
    }

    /** hash_next. */
    method Next() returns (r: Option<T>)
      requires Valid() && !ended
      modifies this
      ensures Valid() && all == old(all) && ended == r.None?
      ensures
        if old(seen) < |all| then r == Some(all[old(seen)]) && seen == old(seen) + 1
        else r == None && seen == old(seen)
    {
      hide Holds, Consistent;
      ghost var buckets := table.buckets;
      pos := pos + 1;
      while !ended && pos == |table.buckets[bucket]|
        invariant table.buckets == buckets && bucket < |buckets| && all == old(all) && seen == old(seen)
        invariant !ended ==> 0 <= pos <= |buckets[bucket]| && |Flat(buckets, bucket)| + pos == seen
        invariant ended ==> seen == |all|
        decreases !ended, |buckets| - bucket
      {
        if bucket + 1 >= |table.buckets| {
          ended := true;
        } else {
          bucket := bucket + 1;
          pos := 0;
        }
      }
      if ended {
        r := None;
      } else {
        FlatAt(buckets, bucket, pos);
        r := Some(table.buckets[bucket][pos]);
        seen := seen + 1;
      }
    }
  }

  /** `s` has each of `elems` once, and nothing else. */
  ghost predicate Enumerates<T(!new)>(s: seq<T>, elems: set<T>) {
    Distinct(s) && |s| == |elems| && forall e :: e in s <==> e in elems
  }

  lemma {:induction false} AllListed<T(!new)>(table: Table<T>)
    requires table.Valid()
    ensures Enumerates(Flat(table.buckets, |table.buckets|), table.elems) && table.elemCnt == |table.elems|
  {
    hide Holds, Consistent, IndexOf, Flat;
    FlatLists(table.keys, table.buckets, table.elems, |table.buckets|);
    InRange(table.keys, table.buckets, table.elems);
    ListSize(Flat(table.buckets, |table.buckets|), table.elems);
  }

  lemma {:induction false} InRange<T(!new)>(k: Keys<T>, buckets: seq<seq<T>>, elems: set<T>)
    requires Consistent(k) && Holds(k, buckets, elems)
    ensures forall e | e in elems :: IndexOf(k, |buckets|, e) < |buckets|
  {
  }

  /** The iteration idiom: hash_first, then hash_next until it returns a null pointer, visits each element exactly
      once. */
  method VisitAll<T(!new)>(table: Table<T>) returns (visited: seq<T>)
    requires table.Valid() && |table.buckets| > 0
    ensures Enumerates(visited, table.elems) && |visited| == table.elemCnt
  {
    hide Table.Valid, Enumerates, Flat, Cursor.Valid;
    AllListed(table);
    var i := new Cursor(table);
    ghost var all := i.all;
    visited := [];
    var r := i.Next();
    while r.Some?
      invariant fresh(i) && i.Valid() && i.ended == r.None? && i.all == all
      invariant r.Some? ==> |visited| < |all| && i.seen == |visited| + 1 && r == Some(all[|visited|])
      invariant |visited| <= |all| && visited == all[..|visited|] && (r.None? ==> |visited| == |all|)
      decreases |all| - |visited|, r.Some?
    {
      visited := visited + [r.value];
      r := i.Next();
    }
    assert visited == all;
    ListedSize(all, table.elems);
  }

  lemma {:induction false} ListedSize<T(!new)>(s: seq<T>, elems: set<T>)
    requires Enumerates(s, elems)
    ensures |s| == |elems|
  {
  }
}
