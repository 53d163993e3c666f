/**
 sort and binary_search (lib/stdlib.c): heapsort in place, with the source's 1-based indexes, on an array of elements.
 */
module HeapSort {
  import opened Basics

  /** The sign conventions of a strcmp-type comparison, for a total preorder. */
  ghost predicate Preorder<T(!new)>(compare: (T, T) -> int) {
    && (forall a, b :: compare(a, b) > 0 <==> compare(b, a) < 0)
    && (forall a, b, c :: compare(a, b) <= 0 && compare(b, c) <= 0 ==> compare(a, c) <= 0)
  }

  predicate Le<T>(compare: (T, T) -> int, a: T, b: T) {
    compare(a, b) <= 0
  }

  ghost predicate Sorted<T>(compare: (T, T) -> int, s: seq<T>) {
    forall i, j | 0 <= i < j < |s| :: Le(compare, s[i], s[j])
  }

  /** The element with 1-based index `i`. */
  function At<T>(s: seq<T>, i: int): T
    requires 1 <= i <= |s|
  {
    s[i - 1]
  }

  predicate Edge(lo: int, cnt: int, c: int) {
    2 <= c <= cnt && lo <= c / 2
  }

  /** Among the first `cnt` elements, each from `lo` on is no less than its children, but perhaps the one at `hole`. */
  ghost predicate HeapBut<T>(compare: (T, T) -> int, s: seq<T>, lo: int, cnt: int, hole: int) {
    && 1 <= lo && cnt <= |s|
    && forall c | Edge(lo, cnt, c) && c / 2 != hole :: Le(compare, At(s, c), At(s, c / 2))
  }

  /** ... and the children of the hole are no more than its parent. */
  ghost predicate Bridged<T>(compare: (T, T) -> int, s: seq<T>, lo: int, cnt: int, hole: int) {
    && 1 <= lo && cnt <= |s|
    && forall c | Edge(lo, cnt, c) && c / 2 == hole && lo <= hole / 2 :: Le(compare, At(s, c), At(s, hole / 2))
  }

  function Swap<T>(s: seq<T>, i: int, j: int): seq<T>
    requires 1 <= i <= |s| && 1 <= j <= |s|
  {
    s[i - 1 := s[j - 1]][j - 1 := s[i - 1]]
  }

  /** The same elements, the ones past `cnt` in the same places. */
  ghost predicate SameUpTo<T>(s: seq<T>, t: seq<T>, cnt: int) {
    0 <= cnt <= |s| == |t| && multiset(s[..cnt]) == multiset(t[..cnt]) && s[cnt..] == t[cnt..]
  }

  lemma {:induction false} SwapSame<T>(s: seq<T>, i: int, j: int, cnt: int)
    requires 1 <= i < j <= cnt <= |s|
    ensures SameUpTo(s, Swap(s, i, j), cnt)
  {
    var a, b := s[..cnt], Swap(s, i, j)[..cnt];
    assert b == a[i - 1 := a[j - 1]][j - 1 := a[i - 1]];
  }

  lemma {:induction false} SameTrans<T>(s: seq<T>, t: seq<T>, u: seq<T>, cnt: int)
    requires SameUpTo(s, t, cnt) && SameUpTo(t, u, cnt)
    ensures SameUpTo(s, u, cnt)
  {
  }

  /** The larger child is swapped with the hole: the hole moves down, and what is above it is in order. */
  lemma {:induction false} FloatDown<T(!new)>(compare: (T, T) -> int, s: seq<T>, lo: int, cnt: int, i: int, m: int)
    requires Preorder(compare) && 1 <= lo <= i && HeapBut(compare, s, lo, cnt, i) && Bridged(compare, s, lo, cnt, i)
    requires (m == 2 * i || m == 2 * i + 1) && m <= cnt && Le(compare, At(s, i), At(s, m))
    requires forall c | Edge(lo, cnt, c) && c / 2 == i :: Le(compare, At(s, c), At(s, m))
    ensures HeapBut(compare, Swap(s, i, m), lo, cnt, m) && Bridged(compare, Swap(s, i, m), lo, cnt, m)
  {
    var t := Swap(s, i, m);
    assert At(t, i) == At(s, m) && At(t, m) == At(s, i);
    forall k | 1 <= k <= |s| && k != i && k != m ensures At(t, k) == At(s, k) {}
    assert Edge(lo, cnt, m);
    forall c | Edge(lo, cnt, c) && c / 2 != m ensures Le(compare, At(t, c), At(t, c / 2)) {
      if c == i {
        assert Le(compare, At(s, m), At(s, i / 2));
      } else if c / 2 == i && c != m {
        assert Le(compare, At(s, c), At(s, m));
      }
    }
    forall c | Edge(lo, cnt, c) && c / 2 == m ensures Le(compare, At(t, c), At(t, m / 2)) {
      assert Le(compare, At(s, c), At(s, m));
    }
  }

  /** do_swap. */
  method DoSwap<T>(a: array<T>, i: int, j: int)
    requires 1 <= i <= a.Length && 1 <= j <= a.Length
    modifies a
    ensures a[..] == Swap(old(a[..]), i, j)
  {
    var t := a[i - 1];
    a[i - 1] := a[j - 1];
    a[j - 1] := t;
  }

  /** The index of the largest among `i` and its children. */
  method LargestOf<T(!new)>(compare: (T, T) -> int, a: array<T>, i: int, cnt: int) returns (m: int)
    requires Preorder(compare) && 1 <= i <= cnt <= a.Length
    ensures m == i || ((m == 2 * i || m == 2 * i + 1) && m <= cnt)
    ensures Le(compare, At(a[..], i), At(a[..], m))
    ensures forall c | 2 * i <= c <= 2 * i + 1 && c <= cnt :: Le(compare, At(a[..], c), At(a[..], m))
  {
    var left, right := 2 * i, 2 * i + 1;
    m := i;
    if left <= cnt && compare(a[left - 1], a[m - 1]) > 0 {
      m := left;
    }
    if right <= cnt && compare(a[right - 1], a[m - 1]) > 0 {
      m := right;
    }
  }

  /** heapify: floats the element at `i` down until the whole range from `i` on is a heap again. */
  method Heapify<T(!new)>(compare: (T, T) -> int, a: array<T>, i: int, cnt: int)
    requires Preorder(compare) && 1 <= i <= cnt <= a.Length && HeapBut(compare, a[..], i, cnt, i)
    modifies a
    ensures HeapBut(compare, a[..], i, cnt, 0) && SameUpTo(old(a[..]), a[..], cnt)
  {
    var j := i;
    while true
      invariant i <= j <= cnt && HeapBut(compare, a[..], i, cnt, j) && Bridged(compare, a[..], i, cnt, j)
      invariant SameUpTo(old(a[..]), a[..], cnt)
      decreases cnt - j
    {
      var m := LargestOf(compare, a, j, cnt);
      if m == j {
        return;
      }
      ghost var s := a[..];
      FloatDown(compare, s, i, cnt, j, m);
      SwapSame(s, j, m, cnt);
      DoSwap(a, j, m);
      SameTrans(old(a[..]), s, a[..], cnt);
      j := m;
    }
  }

  /** The first element of a heap is the largest. */
  lemma {:induction false} RootIsMax<T(!new)>(compare: (T, T) -> int, s: seq<T>, cnt: int, j: int)
    requires Preorder(compare) && HeapBut(compare, s, 1, cnt, 0) && 1 <= j <= cnt
    ensures Le(compare, At(s, j), At(s, 1))
    decreases j
  {
    if j == 1 {
      assert compare(At(s, 1), At(s, 1)) <= 0;
    } else {
      assert Edge(1, cnt, j);
      RootIsMax(compare, s, cnt, j / 2);
    }
  }

  /** The elements from `i` on are sorted, and none of those before is larger. */
  ghost predicate SortedFrom<T>(compare: (T, T) -> int, s: seq<T>, i: int) {
    forall p, q | 0 <= p < q < |s| && i <= q :: Le(compare, s[p], s[q])
  }

  lemma {:induction false} SwapRoot<T(!new)>(compare: (T, T) -> int, s: seq<T>, i: int)
    requires Preorder(compare) && 1 < i <= |s| && HeapBut(compare, s, 1, i, 0) && SortedFrom(compare, s, i)
    ensures SortedFrom(compare, Swap(s, 1, i), i - 1) && HeapBut(compare, Swap(s, 1, i), 1, i - 1, 1)
  {
    var t := Swap(s, 1, i);
    forall p, q | 0 <= p < q < |t| && i - 1 <= q ensures Le(compare, t[p], t[q]) {
      var from := if p == 0 then i - 1 else if p == i - 1 then 0 else p;
      assert t[p] == s[from];
      if q == i - 1 { RootIsMax(compare, s, i, from + 1); }
    }
    forall c | Edge(1, i - 1, c) && c / 2 != 1 ensures Le(compare, At(t, c), At(t, c / 2)) {
      assert Edge(1, i, c) && At(t, c) == At(s, c) && At(t, c / 2) == At(s, c / 2);
    }
  }

  /** Moving elements about before `i` keeps what is sorted from `i` on. */
  lemma {:induction false} KeepsTail<T(!new)>(compare: (T, T) -> int, s: seq<T>, t: seq<T>, i: int)
    requires SortedFrom(compare, s, i) && SameUpTo(s, t, i)
    ensures SortedFrom(compare, t, i)
  {
    forall k | i <= k < |t| ensures t[k] == s[k] { assert t[i..][k - i] == s[i..][k - i]; }
    forall p, q | 0 <= p < q < |t| && i <= q ensures Le(compare, t[p], t[q]) {
      if p < i {
        assert t[p] in multiset(t[..i]);
        var k: int :| 0 <= k < i && s[..i][k] == t[p];
      }
    }
  }

  lemma {:induction false} SameWhole<T>(s: seq<T>, t: seq<T>, cnt: int)
    requires SameUpTo(s, t, cnt)
    ensures multiset(t) == multiset(s)
  {
    assert s == s[..cnt] + s[cnt..] && t == t[..cnt] + t[cnt..];
  }

  method BuildHeap<T(!new)>(compare: (T, T) -> int, a: array<T>)
    requires Preorder(compare)
    modifies a
    ensures HeapBut(compare, a[..], 1, a.Length, 0) && multiset(a[..]) == multiset(old(a[..]))
  {
    hide Preorder, Le;
    var i := a.Length / 2;
    while i > 0
      invariant 0 <= i <= a.Length / 2 && HeapBut(compare, a[..], i + 1, a.Length, 0)
      invariant multiset(a[..]) == multiset(old(a[..]))
    {
      ghost var s := a[..];
      Heapify(compare, a, i, a.Length);
      SameWhole(s, a[..], a.Length);
      i := i - 1;
    }
  }

  /** The largest of the first `i` elements goes to the end of them, and the others are made a heap again. */
  method TakeRoot<T(!new)>(compare: (T, T) -> int, a: array<T>, i: int)
    requires Preorder(compare) && 1 < i <= a.Length
    requires HeapBut(compare, a[..], 1, i, 0) && SortedFrom(compare, a[..], i)
    modifies a
    ensures HeapBut(compare, a[..], 1, i - 1, 0) && SortedFrom(compare, a[..], i - 1)
    ensures multiset(a[..]) == multiset(old(a[..]))
  {
    hide Preorder, Le, HeapBut, SortedFrom, Swap, SameUpTo;
    ghost var s := a[..];
    SwapRoot(compare, s, i);
    SwapSame(s, 1, i, i);
    DoSwap(a, 1, i);
    ghost var t := a[..];
    SameWhole(s, t, i);
    Heapify(compare, a, 1, i - 1);
    KeepsTail(compare, t, a[..], i - 1);
    SameWhole(t, a[..], i - 1);
  }

  lemma {:induction false} SortedNone<T(!new)>(compare: (T, T) -> int, s: seq<T>)
    ensures SortedFrom(compare, s, |s|)
  {
  }

  lemma {:induction false} SortedAll<T(!new)>(compare: (T, T) -> int, s: seq<T>, i: int)
    requires SortedFrom(compare, s, i) && i <= 1
    ensures Sorted(compare, s)
  {
  }

  /** sort: the array ends up a sorted permutation of what it was. */
  method Sort<T(!new)>(compare: (T, T) -> int, a: array<T>)
    requires Preorder(compare)
    modifies a
    ensures Sorted(compare, a[..]) && multiset(a[..]) == multiset(old(a[..]))
  {
    hide Preorder, HeapBut, SortedFrom, Sorted;
    BuildHeap(compare, a);
    SortedNone(compare, a[..]);
    var i := a.Length;
    while i > 1
      invariant 0 <= i <= a.Length && HeapBut(compare, a[..], 1, i, 0) && SortedFrom(compare, a[..], i)
      invariant multiset(a[..]) == multiset(old(a[..]))
    {
      TakeRoot(compare, a, i);
      i := i - 1;
    }
    SortedAll(compare, a[..], i);
  }

  /** binary_search: a match is found exactly when there is one. */
  method BinarySearch<T(!new)>(compare: (T, T) -> int, a: array<T>, key: T) returns (r: Option<nat>)
    requires Preorder(compare) && Sorted(compare, a[..])
    ensures r.Some? ==> r.value < a.Length && compare(key, a[r.value]) == 0
    ensures r.None? ==> forall i | 0 <= i < a.Length :: compare(key, a[i]) != 0
  {
    var first, last := 0, a.Length;
    while first < last
      invariant 0 <= first <= last <= a.Length
      invariant forall i | 0 <= i < first :: compare(key, a[i]) > 0
      invariant forall i | last <= i < a.Length :: compare(key, a[i]) < 0
    {
      var middle := first + (last - first) / 2;
      var cmp := compare(key, a[middle]);
      if cmp < 0 {
        forall i | middle <= i < a.Length ensures compare(key, a[i]) < 0 { Beyond(compare, a[..], key, middle, i); }
        last := middle;
      } else if cmp > 0 {
        forall i | 0 <= i <= middle ensures compare(key, a[i]) > 0 { Beyond(compare, a[..], key, middle, i); }
        first := middle + 1;
      } else {
        return Some(middle);
      }
    }
    return None;
  }

  lemma {:induction false} Beyond<T(!new)>(compare: (T, T) -> int, s: seq<T>, key: T, m: nat, i: nat)
    requires Preorder(compare) && Sorted(compare, s) && m < |s| && i < |s|
    ensures m <= i && compare(key, s[m]) < 0 ==> compare(key, s[i]) < 0
    ensures i <= m && compare(key, s[m]) > 0 ==> compare(key, s[i]) > 0
  {
    if m < i { assert Le(compare, s[m], s[i]); }
    if i < m { assert Le(compare, s[i], s[m]); }
  }
}
