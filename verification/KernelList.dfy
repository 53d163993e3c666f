/**
 Doubly linked lists (lib/kernel/list.c): elements are linked through their own `prev` and `next` fields between
 a `head` and a `tail` header. The ghost field `chain` is the sequence of elements from `head` to `tail`; every
 method says what it makes of that sequence, and `Valid` says that the links spell it out in both directions.
 A ghost index locates each element argument in its chain: the C functions are only told the element.
 */
module KernelList {
  import opened Basics
  import opened NaturalMerge

  /** An intrusive element: what encloses it is only seen through a comparison function. */
  class ListElem {
    var prev: ListElem?
    var next: ListElem?

    constructor ()
      ensures prev == null && next == null
    {
      prev, next := null, null;
    }
  }

  ghost predicate Apart<T>(s: seq<T>, t: seq<T>) {
    forall i, j | 0 <= i < |s| && 0 <= j < |t| :: s[i] != t[j]
  }

  /** `c` is linked in both directions; what its two ends point to outside does not matter. */
  ghost predicate Segment(c: seq<ListElem>)
    reads c
  {
    && |c| > 0
    && (forall i {:trigger c[i].next} | 0 <= i < |c| - 1 :: c[i].next == c[i + 1])
    && (forall i {:trigger c[i].prev} | 1 <= i < |c| :: c[i].prev == c[i - 1])
    && Distinct(c)
  }

  ghost predicate Linked(c: seq<ListElem>)
    reads c
  {
    |c| >= 2 && Segment(c) && c[0].prev == null && c[|c| - 1].next == null
  }

  class List {
    const head: ListElem
    const tail: ListElem
    ghost var chain: seq<ListElem>
    ghost var repr: set<ListElem>

    ghost predicate Valid()
      reads this, repr
    {
      && (forall i | 0 <= i < |chain| :: chain[i] in repr)
      && Linked(chain) && chain[0] == head && chain[|chain| - 1] == tail
    }

    /** The interior elements. */
    ghost function Elems(): seq<ListElem>
      requires |chain| >= 2
      reads this
    {
      chain[1..|chain| - 1]
    }

    /** list_init. */
    constructor ()
      ensures Valid() && Elems() == [] && fresh(repr)
    {
      head := new ListElem();
      tail := new ListElem();
      chain, repr := [], {};
      new;
      head.next := tail;
      tail.prev := head;
      chain, repr := [head, tail], {head, tail};
    }

    method Begin() returns (e: ListElem)
      requires Valid()
      ensures e == chain[1]
    {
      e := head.next;
    }

    method Empty() returns (b: bool)
      requires Valid()
      ensures b <==> Elems() == []
    {
      var e := Begin();
      b := e == tail;
    }

    method Size() returns (cnt: nat)
      requires Valid()
      ensures cnt == |Elems()|
    {
      cnt := 0;
      var e := Begin();
      while e != tail
        invariant cnt + 2 <= |chain| && e == chain[cnt + 1]
        decreases |chain| - cnt
      {
        e := Next(e, this, cnt + 1);
        cnt := cnt + 1;
      }
    }

    method PushBack(elem: ListElem)
      requires Valid() && elem !in repr
      modifies this, repr, elem
      ensures Valid() && repr == old(repr) + {elem} && Elems() == old(Elems()) + [elem]
    {
      assert |chain| >= 2;
      hide Linked;
      InsertedElems(chain, |chain| - 1, elem);
      Insert(tail, elem, this, |chain| - 1);
    }

    method PushFront(elem: ListElem)
      requires Valid() && elem !in repr
      modifies this, repr, elem
      ensures Valid() && repr == old(repr) + {elem} && Elems() == [elem] + old(Elems())
    {
      var e := Begin();
      hide Linked;
      InsertedElems(chain, 1, elem);
      Insert(e, elem, this, 1);
    }

    method PopFront() returns (front: ListElem)
      requires Valid() && Elems() != []
      modifies this, repr
      ensures Valid() && repr == old(repr) - {front} && front == old(Elems())[0] && Elems() == old(Elems())[1..]
    {
      front := Begin();
      var _ := Remove(front, this, 1);
    }

    /** The loop of list_reverse: the two links of every interior element are swapped. */
    method SwapLinks()
      requires Valid()
      modifies chain[1..|chain| - 1]
      ensures forall i {:trigger chain[i].next} | 1 <= i < |chain| - 1 :: chain[i].next == chain[i - 1]
      ensures forall i {:trigger chain[i].prev} | 1 <= i < |chain| - 1 :: chain[i].prev == chain[i + 1]
    {
      ghost var c, n := chain, |chain|;
      var e := Begin();
      ghost var k := 1;
      while e != tail
        invariant 1 <= k <= n - 1 && e == c[k]
        invariant forall i {:trigger c[i].next} | 1 <= i < k :: c[i].next == c[i - 1]
        invariant forall i {:trigger c[i].prev} | 1 <= i < k :: c[i].prev == c[i + 1]
        invariant forall i {:trigger c[i].next} | k <= i < n - 1 :: c[i].next == c[i + 1]
        invariant forall i {:trigger c[i].prev} | k <= i < n - 1 :: c[i].prev == c[i - 1]
        decreases n - k
      {
        assert e == c[1..n - 1][k - 1];
        e.prev, e.next := e.next, e.prev;
        e := e.prev;
        k := k + 1;
      }
    }

    /** The headers of list_reverse, after the loop: they change places as neighbours. */
    method SwapHeaders(ghost c: seq<ListElem>)
      requires |c| >= 3 && chain == c && head == c[0] && tail == c[|c| - 1] && Distinct(c)
      requires (forall i | 0 <= i < |c| :: c[i] in repr)
      requires c[0].prev == null && c[0].next == c[1] && c[|c| - 1].next == null && c[|c| - 1].prev == c[|c| - 2]
      requires forall i {:trigger c[i].next} | 1 <= i < |c| - 1 :: c[i].next == c[i - 1]
      requires forall i {:trigger c[i].prev} | 1 <= i < |c| - 1 :: c[i].prev == c[i + 1]
      modifies this`chain, repr
      ensures Valid() && chain == Mirror(c)
    {
      head.next, tail.prev := tail.prev, head.next;
      head.next.prev, tail.prev.next := tail.prev.next, head.next.prev;
      chain := Mirror(c);
      MirrorLinked(c, chain);
    }

    /** list_reverse. */
    method Reverse()
      requires Valid()
      modifies this`chain, repr
      ensures Valid() && chain == Mirror(old(chain))
    {
      var empty := Empty();
      if empty {
        MirrorEmpty(chain);
      } else {
        ghost var c := chain;
        SwapLinks();
        SwapHeaders(c);
      }
    }
  }

  /** A list between its headers turned around. */
  ghost function Mirror(c: seq<ListElem>): (r: seq<ListElem>)
    requires |c| >= 2
    ensures |r| == |c| && r[0] == c[0] && r[|c| - 1] == c[|c| - 1]
    ensures forall i {:trigger r[i]} | 0 < i < |c| - 1 :: r[i] == c[|c| - 1 - i]
  {
    seq(|c|, i requires 0 <= i < |c| => if 0 < i < |c| - 1 then c[|c| - 1 - i] else c[i])
  }

  lemma {:induction false} MirrorEmpty(c: seq<ListElem>)
    requires |c| == 2
    ensures Mirror(c) == c
  {
  }

  /** Reversing twice gives the list back. */
  lemma {:induction false} MirrorTwice(c: seq<ListElem>)
    requires |c| >= 2
    ensures Mirror(Mirror(c)) == c
  {
    var d := Mirror(c);
    forall i | 0 < i < |c| - 1 ensures Mirror(d)[i] == c[i] { assert d[|c| - 1 - i] == c[i]; }
  }

  /** What Reverse leaves behind: all links inside turned around, the two headers re-attached. */
  lemma {:induction false} MirrorLinked(c: seq<ListElem>, r: seq<ListElem>)
    requires |r| == |c| >= 3 && r[0] == c[0] && r[|c| - 1] == c[|c| - 1] && Distinct(c)
    requires forall i {:trigger r[i]} | 0 < i < |c| - 1 :: r[i] == c[|c| - 1 - i]
    requires c[0].prev == null && c[0].next == c[|c| - 2] && c[|c| - 2].prev == c[0]
    requires c[|c| - 1].next == null && c[|c| - 1].prev == c[1] && c[1].next == c[|c| - 1]
    requires forall i {:trigger c[i].next} | 2 <= i < |c| - 1 :: c[i].next == c[i - 1]
    requires forall i {:trigger c[i].prev} | 1 <= i < |c| - 2 :: c[i].prev == c[i + 1]
    ensures Linked(r)
  {
  }

  lemma {:induction false} SamePlace(list: List, i: nat, j: nat)
    requires list.Valid() && i < |list.chain| && j < |list.chain|
    ensures list.chain[i] == list.chain[j] ==> i == j
  {
  }

  method Next(elem: ListElem, ghost list: List, ghost k: nat) returns (e: ListElem)
    requires list.Valid() && k < |list.chain| - 1 && elem == list.chain[k]
    ensures e == list.chain[k + 1]
  {
    e := elem.next;
  }

  method Prev(elem: ListElem, ghost list: List, ghost k: nat) returns (e: ListElem)
    requires list.Valid() && 0 < k < |list.chain| && elem == list.chain[k]
    ensures e == list.chain[k - 1]
  {
    e := elem.prev;
  }

  lemma {:induction false} PastedLinked(d: seq<ListElem>, seg: seq<ListElem>, b: nat)
    requires |d| >= 2 && 0 < b < |d| && Distinct(d) && Segment(seg) && Apart(seg, d)
    requires d[0].prev == null && d[|d| - 1].next == null
    requires forall i {:trigger d[i].next} | 0 <= i < |d| - 1 && i != b - 1 :: d[i].next == d[i + 1]
    requires forall i {:trigger d[i].prev} | 1 <= i < |d| && i != b :: d[i].prev == d[i - 1]
    requires d[b - 1].next == seg[0] && seg[0].prev == d[b - 1]
    requires d[b].prev == seg[|seg| - 1] && seg[|seg| - 1].next == d[b]
    ensures Linked(d[..b] + seg + d[b..])
  {
    var r, n := d[..b] + seg + d[b..], |seg|;
    assert forall i {:trigger r[i]} | 0 <= i < b :: r[i] == d[i];
    assert forall i {:trigger r[i]} | b <= i < b + n :: r[i] == seg[i - b];
    assert forall i {:trigger r[i]} | b + n <= i < |r| :: r[i] == d[i - n];
  }

  lemma {:induction false} CutLinked(s: seq<ListElem>, f: nat, l: nat)
    requires 0 < f <= l < |s| && Distinct(s)
    requires s[0].prev == null && s[|s| - 1].next == null
    requires forall i {:trigger s[i].next} | 0 <= i < f - 1 || l <= i < |s| - 1 :: s[i].next == s[i + 1]
    requires forall i {:trigger s[i].prev} | 1 <= i < f || l < i < |s| :: s[i].prev == s[i - 1]
    requires s[f - 1].next == s[l] && s[l].prev == s[f - 1]
    ensures Linked(s[..f] + s[l..])
  {
    var r := s[..f] + s[l..];
    assert forall i {:trigger r[i]} | 0 <= i < f :: r[i] == s[i];
    assert forall i {:trigger r[i]} | f <= i < |r| :: r[i] == s[i - f + l];
  }

  lemma {:induction false} InsertedElems(c: seq<ListElem>, k: nat, elem: ListElem)
    requires 0 < k < |c|
    ensures var d := c[..k] + [elem] + c[k..]; d[1..|d| - 1] == c[1..k] + [elem] + c[k..|c| - 1]
    ensures c[1..1] == c[|c| - 1..|c| - 1] == []
  {
  }

  /** list_insert: `before` is an interior element or the tail. */
  method Insert(before: ListElem, elem: ListElem, ghost list: List, ghost k: nat)
    requires list.Valid() && 0 < k < |list.chain| && before == list.chain[k]
    requires elem !in list.repr
    modifies list, list.repr, elem
    ensures list.Valid() && list.repr == old(list.repr) + {elem}
    ensures list.chain == old(list.chain)[..k] + [elem] + old(list.chain)[k..]
  {
    ghost var c := list.chain;
    elem.prev := before.prev;
    elem.next := before;
    before.prev.next := elem;
    before.prev := elem;
    PastedLinked(c, [elem], k);
    list.chain, list.repr := c[..k] + [elem] + c[k..], list.repr + {elem};
  }

  /** list_remove: returns the element that followed. The removed element keeps its own links. */
  method Remove(elem: ListElem, ghost list: List, ghost k: nat) returns (e: ListElem)
    requires list.Valid() && 0 < k < |list.chain| - 1 && elem == list.chain[k]
    modifies list, list.repr
    ensures list.Valid() && list.repr == old(list.repr) - {elem}
    ensures list.chain == old(list.chain)[..k] + old(list.chain)[k + 1..]
    ensures e == list.chain[k]
    ensures elem.prev == old(elem.prev) && elem.next == old(elem.next)
  {
    ghost var c := list.chain;
    elem.prev.next := elem.next;
    elem.next.prev := elem.prev;
    CutLinked(c, k, k + 1);
    list.chain, list.repr := c[..k] + c[k + 1..], list.repr - {elem};
    e := elem.next;
  }

  /** The first half of list_splice: takes `first` through `last` (inclusive) out of their list. */
  method Cut(first: ListElem, last: ListElem, ghost src: List, ghost f: nat, ghost l: nat)
    requires src.Valid()
    requires 0 < f < l < |src.chain| && first == src.chain[f] && last == src.chain[l - 1]
    modifies src`chain, src.repr
    ensures src.Valid() && src.chain == old(src.chain)[..f] + old(src.chain)[l..]
    ensures Segment(old(src.chain)[f..l]) && Apart(old(src.chain)[f..l], src.chain)
  {
    hide Apart;
    ghost var s := src.chain;
    first.prev.next := last.next;
    last.next.prev := first.prev;
    CutLinked(s, f, l);
    PartLinked(s, f, l);
    PartApart(s, f, l);
    src.chain := s[..f] + s[l..];
  }

  lemma {:induction false} PartLinked(s: seq<ListElem>, f: nat, l: nat)
    requires f < l <= |s| && Distinct(s)
    requires forall i {:trigger s[i].next} | f <= i < l - 1 :: s[i].next == s[i + 1]
    requires forall i {:trigger s[i].prev} | f < i < l :: s[i].prev == s[i - 1]
    ensures Segment(s[f..l])
  {
    var c := s[f..l];
    assert forall i {:trigger c[i]} | 0 <= i < |c| :: c[i] == s[f + i];
  }

  lemma {:induction false} PartApart<T>(s: seq<T>, f: nat, l: nat)
    requires f <= l <= |s| && Distinct(s)
    ensures Apart(s[f..l], s[..f] + s[l..])
  {
  }

  /** The second half of list_splice: links the segment in just before `before`. */
  method Paste(before: ListElem, first: ListElem, last: ListElem, ghost seg: seq<ListElem>,
               ghost dst: List, ghost b: nat)
    requires dst.Valid() && Segment(seg) && first == seg[0] && last == seg[|seg| - 1]
    requires 0 < b < |dst.chain| && before == dst.chain[b]
    requires Apart(seg, dst.chain) && forall i | 0 <= i < |seg| :: seg[i] in dst.repr
    modifies dst`chain, dst.repr
    ensures dst.Valid() && dst.chain == old(dst.chain)[..b] + seg + old(dst.chain)[b..]
  {
    ghost var d := dst.chain;
    first.prev := before.prev;
    last.next := before;
    before.prev.next := first;
    before.prev := last;
    PastedLinked(d, seg, b);
    dst.chain := d[..b] + seg + d[b..];
  }

  /** Where the elements `f..l` of `s` end up when they are moved to just before index `b` of the same list. */
  ghost function Moved<T>(s: seq<T>, f: nat, l: nat, b: nat): seq<T>
    requires f <= l <= |s| && b <= |s| && (f == l || b < f || l <= b)
  {
    if f == l then s
    else if b < f then s[..b] + s[f..l] + s[b..f] + s[l..]
    else s[..f] + s[l..b] + s[f..l] + s[b..]
  }

  /** The index that `b` becomes when `f..l` are cut out. */
  ghost function AfterCut(f: nat, l: nat, b: nat): nat
    requires f <= l && (b < f || l <= b)
  {
    if l <= b then b - (l - f) else b
  }

  lemma {:induction false} CutThenPaste<T>(s: seq<T>, f: nat, l: nat, b: nat)
    requires f < l <= |s| && b < |s| && (b < f || l <= b)
    ensures var t, at := s[..f] + s[l..], AfterCut(f, l, b);
            at < |t| && t[at] == s[b] && t[..at] + s[f..l] + t[at..] == Moved(s, f, l, b)
  {
    var t, at := s[..f] + s[l..], AfterCut(f, l, b);
    if b < f {
      assert t[..at] == s[..b] && t[at..] == s[b..f] + s[l..];
    } else {
      assert t[..at] == s[..f] + s[l..b] && t[at..] == s[b..];
    }
  }

  /** list_splice, with the elements `f..l` going to just before index `b` of the same list. */
  method Splice(before: ListElem, first: ListElem, last: ListElem, ghost list: List, ghost f: nat, ghost l: nat,
                ghost b: nat)
    requires list.Valid()
    requires 0 < f <= l < |list.chain| && first == list.chain[f] && last == list.chain[l]
    requires 0 < b < |list.chain| && before == list.chain[b] && (f == l || b < f || l <= b)
    modifies list`chain, list.repr
    ensures list.Valid()
    ensures list.chain == Moved(old(list.chain), f, l, b)
  {
    if first == last {
      assert f == l;
      return;
    }
    ghost var seg := list.chain[f..l];
    CutThenPaste(list.chain, f, l, b);
    var last' := Prev(last, list, l);
    Cut(first, last', list, f, l);
    Paste(before, first, last', seg, list, AfterCut(f, l, b));
  }

  ghost function ElemSet(c: seq<ListElem>): set<ListElem> {
    set e | e in c
  }

  /** The ghost footprint of a segment goes from one list to the other. */
  ghost method HandOver(src: List, dst: List, seg: seq<ListElem>)
    requires src != dst && src.Valid() && dst.Valid() && src.repr !! dst.repr && Apart(seg, src.chain)
    requires forall i | 0 <= i < |seg| :: seg[i] in src.repr
    modifies src`repr, dst`repr
    ensures src.Valid() && dst.Valid() && src.repr == old(src.repr) - ElemSet(seg)
    ensures dst.repr == old(dst.repr) + ElemSet(seg)
  {
    hide Linked;
    forall i | 0 <= i < |src.chain| ensures src.chain[i] !in ElemSet(seg) {}
    src.repr, dst.repr := src.repr - ElemSet(seg), dst.repr + ElemSet(seg);
  }

  /** list_splice, with the elements `f..l` of one list going to just before index `b` of another. */
  method SpliceInto(before: ListElem, first: ListElem, last: ListElem,
                    ghost src: List, ghost dst: List, ghost f: nat, ghost l: nat, ghost b: nat)
    requires src != dst && src.Valid() && dst.Valid() && src.repr !! dst.repr
    requires 0 < f <= l < |src.chain| && first == src.chain[f] && last == src.chain[l]
    requires 0 < b < |dst.chain| && before == dst.chain[b]
    modifies src, dst, src.repr, dst.repr
    ensures src.Valid() && dst.Valid() && src.repr !! dst.repr
    ensures src.chain == old(src.chain)[..f] + old(src.chain)[l..]
    ensures dst.chain == old(dst.chain)[..b] + old(src.chain)[f..l] + old(dst.chain)[b..]
  {
    hide List.Valid, Segment, Apart;
    ghost var seg := src.chain[f..l];
    if first == last {
      SamePlace(src, f, l);
      NothingMoved(src.chain, dst.chain, f, b);
      return;
    }
    PartIn(src, f, l);
    OtherList(dst, seg, src.repr);
    var last' := Prev(last, src, l);
    Cut(first, last', src, f, l);
    HandOver(src, dst, seg);
    Paste(before, first, last', seg, dst, b);
  }

  lemma {:induction false} NothingMoved<T>(s: seq<T>, d: seq<T>, f: nat, b: nat)
    requires f <= |s| && b <= |d|
    ensures s[..f] + s[f..] == s && d[..b] + s[f..f] + d[b..] == d
  {
  }

  lemma {:induction false} PartIn(list: List, f: nat, l: nat)
    requires list.Valid() && f <= l <= |list.chain|
    ensures forall i | 0 <= i < l - f :: list.chain[f..l][i] in list.repr
  {
    hide Linked;
  }

  lemma {:induction false} OtherList(list: List, seg: seq<ListElem>, others: set<ListElem>)
    requires list.Valid() && list.repr !! others && forall i | 0 <= i < |seg| :: seg[i] in others
    ensures Apart(seg, list.chain)
  {
    hide Linked;
  }

  /** find_end_of_run, over the part `i..j` of the chain. */
  method FindEndOfRun(a: ListElem, b: ListElem, less: (ListElem, ListElem) -> bool,
                      ghost list: List, ghost i: nat, ghost j: nat) returns (e: ListElem)
    requires list.Valid() && 0 < i < j < |list.chain| && a == list.chain[i] && b == list.chain[j]
    ensures e == list.chain[i + RunEnd(less, list.chain[i..j])]
  {
    ghost var c, k := list.chain, i + 1;
    e := Next(a, list, i);
    while e != b && !less(e, e.prev)
      invariant i < k <= j && e == c[k]
      invariant i + RunEnd(less, c[i..j]) == k - 1 + RunEnd(less, c[k - 1..j])
      decreases j - k
    {
      assert c[k - 1..j][1..] == c[k..j];
      e := Next(e, list, k);
      k := k + 1;
    }
  }

  /** What a merge of `c[p..q]` and `c[q..h]` still has to produce, after `c[i..p]`. */
  ghost function Outcome<T>(less: (T, T) -> bool, c: seq<T>, i: nat, p: nat, q: nat, h: nat): seq<T>
    requires i <= p <= q <= h <= |c|
  {
    c[i..p] + Merge(less, c[p..q], c[q..h])
  }

  lemma {:induction false} MergeTakesA<T>(less: (T, T) -> bool, c: seq<T>, i: nat, p: nat, q: nat, h: nat)
    requires i <= p < q < h <= |c| && !less(c[q], c[p])
    ensures Outcome(less, c, i, p + 1, q, h) == Outcome(less, c, i, p, q, h)
  {
    assert c[p..q][1..] == c[p + 1..q];
    assert c[i..p + 1] == c[i..p] + [c[p]];
  }

  /** `d` is `c` with the element at `q` moved down to `p`. */
  ghost predicate MovedDown<T>(c: seq<T>, d: seq<T>, p: nat, q: nat)
    requires p < q < |c|
  {
    && |d| == |c| && d[..p] == c[..p] && d[p] == c[q]
    && d[p + 1..q + 1] == c[p..q] && d[q + 1..] == c[q + 1..]
  }

  lemma {:induction false} MovedOne<T>(c: seq<T>, p: nat, q: nat)
    requires p < q < |c|
    ensures MovedDown(c, Moved(c, q, q + 1, p), p, q)
  {
  }

  ghost predicate SameEnds<T>(c: seq<T>, d: seq<T>, i: nat, h: nat)
    requires i <= h <= |c| == |d|
  {
    d[..i] == c[..i] && d[h..] == c[h..]
  }

  lemma {:induction false} SameEndsTrans<T>(c: seq<T>, d: seq<T>, e: seq<T>, i: nat, h: nat)
    requires i <= h <= |c| == |d| == |e|
    ensures SameEnds(c, c, i, h)
    ensures SameEnds(c, d, i, h) && SameEnds(d, e, i, h) ==> SameEnds(c, e, i, h)
  {
  }

  lemma {:induction false} MergeTakesB<T>(less: (T, T) -> bool, c: seq<T>, d: seq<T>, i: nat, p: nat, q: nat, h: nat)
    requires i <= p < q < h < |c| == |d| && less(c[q], c[p]) && MovedDown(c, d, p, q)
    ensures Outcome(less, d, i, p + 1, q + 1, h) == Outcome(less, c, i, p, q, h)
    ensures SameEnds(c, d, i, h)
    ensures d[p + 1] == c[p] && d[q + 1] == c[q + 1] && d[h] == c[h]
  {
    assert c[q..h][1..] == c[q + 1..h];
    assert d[i..p] == d[..p][i..] == c[i..p];
    assert d[..i] == d[..p][..i] == c[..i];
    assert d[i..p + 1] == c[i..p] + [c[q]];
    assert d[q + 1..h] == d[q + 1..][..h - q - 1] == c[q + 1..h];
    assert d[h..] == d[q + 1..][h - q - 1..] == c[h..];
    assert d[p + 1] == d[p + 1..q + 1][0] && d[q + 1] == d[q + 1..][0] && d[h] == d[h..][0];
  }

  lemma {:induction false} OutcomeStart<T>(less: (T, T) -> bool, c: seq<T>, i: nat, m: nat, h: nat)
    requires i <= m <= h <= |c|
    ensures Outcome(less, c, i, i, m, h) == Merge(less, c[i..m], c[m..h])
  {
  }

  lemma {:induction false} OutcomeDone<T>(less: (T, T) -> bool, c: seq<T>, i: nat, p: nat, q: nat, h: nat)
    requires i <= p <= q <= h <= |c| && (p == q || q == h)
    ensures Outcome(less, c, i, p, q, h) == c[i..h]
  {
    assert c[p..q] + c[q..h] == c[p..h];
    assert Merge(less, c[p..q], c[q..h]) == c[p..h];
  }

  /** The else branch of inplace_merge: `a1b0` steps on, and the element it leaves moves to just before `a0`. */
  method TakeFromSecond(a0: ListElem, a1b0: ListElem, ghost list: List, ghost p: nat, ghost q: nat)
    returns (e: ListElem)
    requires list.Valid() && 0 < p < q < |list.chain| - 1 && a0 == list.chain[p] && a1b0 == list.chain[q]
    modifies list`chain, list.repr
    ensures list.Valid() && |list.chain| == |old(list.chain)|
    ensures MovedDown(old(list.chain), list.chain, p, q)
    ensures e == list.chain[q + 1]
  {
    MovedOne(list.chain, p, q);
    e := Next(a1b0, list, q);
    var prev := Prev(e, list, q + 1);
    Splice(a0, prev, e, list, q, q + 1, p);
  }

  /** inplace_merge of the runs `i..m` and `m..h` of the chain. */
  method InplaceMerge(a0: ListElem, a1b0: ListElem, b1: ListElem, less: (ListElem, ListElem) -> bool,
                      ghost list: List, ghost i: nat, ghost m: nat, ghost h: nat)
    requires list.Valid() && 0 < i <= m <= h < |list.chain|
    requires a0 == list.chain[i] && a1b0 == list.chain[m] && b1 == list.chain[h]
    modifies list`chain, list.repr
    ensures list.Valid() && |list.chain| == |old(list.chain)|
    ensures SameEnds(old(list.chain), list.chain, i, h)
    ensures list.chain[i..h] == Merge(less, old(list.chain)[i..m], old(list.chain)[m..h])
  {
    hide Merging, Merge, MovedDown, SameEnds, List.Valid;
    ghost var c, p, q := list.chain, i, m;
    MergingStarts(less, c, i, m, h);
    ghost var goal := Merge(less, c[i..m], c[m..h]);
    var x, y := a0, a1b0;
    while x != y && y != b1
      invariant list.Valid() && i <= p <= q <= h < |list.chain|
      invariant x == list.chain[p] && y == list.chain[q] && b1 == list.chain[h]
      invariant Merging(less, c, list.chain, i, p, q, h, goal)
      decreases h - p + h - q
    {
      if !less(y, x) {
        MergingA(less, c, list.chain, i, p, q, h, goal);
        x := Next(x, list, p);
      } else {
        ghost var d := list.chain;
        y := TakeFromSecond(x, y, list, p, q);
        MergingB(less, c, d, list.chain, i, p, q, h, goal);
        q := q + 1;
      }
      p := p + 1;
    }
    SamePlace(list, p, q);
    SamePlace(list, q, h);
    MergingDone(less, c, list.chain, i, p, q, h, goal);
  }

  /** `d` is the chain part way through a merge that started with `c` and is to leave `goal`. */
  ghost predicate Merging<T>(less: (T, T) -> bool, c: seq<T>, d: seq<T>, i: nat, p: nat, q: nat, h: nat, goal: seq<T>) {
    && i <= p <= q <= h < |d| == |c| && SameEnds(c, d, i, h)
    && Outcome(less, d, i, p, q, h) == goal
  }

  lemma {:induction false} MergingStarts<T>(less: (T, T) -> bool, c: seq<T>, i: nat, m: nat, h: nat)
    requires i <= m <= h < |c|
    ensures Merging(less, c, c, i, i, m, h, Merge(less, c[i..m], c[m..h]))
  {
    SameEndsTrans(c, c, c, i, h);
    OutcomeStart(less, c, i, m, h);
  }

  lemma {:induction false} MergingA<T>(less: (T, T) -> bool, c: seq<T>, d: seq<T>, i: nat, p: nat, q: nat, h: nat,
                                       goal: seq<T>)
    requires Merging(less, c, d, i, p, q, h, goal) && p < q < h && !less(d[q], d[p])
    ensures Merging(less, c, d, i, p + 1, q, h, goal)
  {
    hide Outcome, SameEnds;
    MergeTakesA(less, d, i, p, q, h);
  }

  lemma {:induction false} MergingB<T>(less: (T, T) -> bool, c: seq<T>, d: seq<T>, e: seq<T>,
                                       i: nat, p: nat, q: nat, h: nat, goal: seq<T>)
    requires Merging(less, c, d, i, p, q, h, goal) && p < q < h && less(d[q], d[p]) && MovedDown(d, e, p, q)
    ensures |e| == |d| && Merging(less, c, e, i, p + 1, q + 1, h, goal)
    ensures e[p + 1] == d[p] && e[q + 1] == d[q + 1] && e[h] == d[h]
  {
    assert |e| == |d|;
    hide Outcome, SameEnds, MovedDown;
    MergeTakesB(less, d, e, i, p, q, h);
    SameEndsTrans(c, d, e, i, h);
  }

  lemma {:induction false} MergingDone<T>(less: (T, T) -> bool, c: seq<T>, d: seq<T>, i: nat, p: nat, q: nat, h: nat,
                                          goal: seq<T>)
    requires Merging(less, c, d, i, p, q, h, goal) && (p == q || q == h)
    ensures |d| == |c| && SameEnds(c, d, i, h) && d[i..h] == goal
  {
    hide Outcome, SameEnds;
    OutcomeDone(less, d, i, p, q, h);
  }

  /** What one pass still has to produce, when everything before `p` has been handled. */
  ghost function PassOutcome<T>(less: (T, T) -> bool, c: seq<T>, p: nat): seq<T>
    requires 0 < p < |c|
  {
    c[1..p] + Pass(less, c[p..|c| - 1])
  }

  lemma {:induction false} SliceOfSlice<T>(c: seq<T>, a: nat, b: nat, x: nat, y: nat)
    requires a <= b <= |c| && x <= y <= b - a
    ensures c[a..b][x..y] == c[a + x..a + y]
  {
    var s, t := c[a..b][x..y], c[a + x..a + y];
    forall i | 0 <= i < y - x ensures s[i] == t[i] {
      assert s[i] == c[a..b][x + i] == c[a + (x + i)];
    }
  }

  lemma {:induction false} PassStep<T>(less: (T, T) -> bool, c: seq<T>, d: seq<T>, p: nat, m: nat, h: nat)
    requires 0 < p < m < h < |c| == |d|
    requires m == p + RunEnd(less, c[p..|c| - 1]) && h == m + RunEnd(less, c[m..|c| - 1])
    requires SameEnds(c, d, p, h) && d[p..h] == Merge(less, c[p..m], c[m..h])
    ensures PassOutcome(less, d, h) == PassOutcome(less, c, p)
    ensures PassRuns(less, c[p..|c| - 1]) == 1 + PassRuns(less, d[h..|d| - 1])
  {
    hide Pass, PassRuns, RunEnd, Merge;
    var n := |c| - 1;
    var s := c[p..n];
    SliceOfSlice(c, p, n, 0, m - p);
    SliceOfSlice(c, p, n, m - p, h - p);
    SliceOfSlice(c, p, n, m - p, n - p);
    SliceOfSlice(c, p, n, h - p, n - p);
    assert d[h..n] == d[h..][..n - h] == c[h..n];
    assert d[1..p] == d[..p][1..] == c[1..p];
    assert d[1..h] == d[1..p] + d[p..h];
    var z := Pass(less, d[h..n]);
    calc {
      Pass(less, s);
      { PassUnfold(less, s, m - p, h - p); }
      d[p..h] + z;
    }
    assert PassRuns(less, s) == 1 + PassRuns(less, d[h..n]) by { PassUnfold(less, s, m - p, h - p); }
    assert d[1..p] + (d[p..h] + z) == d[1..h] + z;
  }

  lemma {:induction false} PassStart<T>(less: (T, T) -> bool, c: seq<T>)
    requires |c| >= 2
    ensures PassOutcome(less, c, 1) == Pass(less, c[1..|c| - 1])
  {
  }

  lemma {:induction false} PassLast<T>(less: (T, T) -> bool, c: seq<T>, p: nat)
    requires 0 < p < |c| - 1 && OneRun(less, c[p..|c| - 1])
    ensures PassOutcome(less, c, p) == c[1..|c| - 1] && PassRuns(less, c[p..|c| - 1]) == 1
  {
    PassWhole(less, c[p..|c| - 1]);
  }

  lemma {:induction false} PassEnd<T>(less: (T, T) -> bool, c: seq<T>)
    requires |c| >= 2
    ensures PassOutcome(less, c, |c| - 1) == c[1..|c| - 1] && PassRuns(less, c[|c| - 1..|c| - 1]) == 0
  {
  }

  /** One round of the loop that makes up a pass: two runs are found and merged, unless only one is left. */
  method MergeNextTwo(a0: ListElem, list: List, less: (ListElem, ListElem) -> bool, ghost p: nat)
    returns (last: bool, b1: ListElem, ghost h: nat)
    requires list.Valid() && 0 < p < |list.chain| - 1 && a0 == list.chain[p]
    modifies list`chain, list.repr
    ensures list.Valid() && |list.chain| == |old(list.chain)|
    ensures last ==> list.chain == old(list.chain) && OneRun(less, list.chain[p..|list.chain| - 1])
    ensures !last ==>
              && p < h < |list.chain| && b1 == list.chain[h]
              && PassOutcome(less, list.chain, h) == PassOutcome(less, old(list.chain), p)
              && PassRuns(less, old(list.chain)[p..|list.chain| - 1])
                 == 1 + PassRuns(less, list.chain[h..|list.chain| - 1])
  {
    hide Pass, PassRuns, RunEnd, Merge, PassOutcome;
    ghost var c, n := list.chain, |list.chain| - 1;
    var a1b0 := FindEndOfRun(a0, list.tail, less, list, p, n);
    last, b1, h := a1b0 == list.tail, a1b0, n;
    if !last {
      ghost var m := p + RunEnd(less, c[p..n]);
      b1 := FindEndOfRun(a1b0, list.tail, less, list, m, n);
      h := m + RunEnd(less, c[m..n]);
      InplaceMerge(a0, a1b0, b1, less, list, p, m, h);
      PassStep(less, c, list.chain, p, m, h);
    }
  }

  /** One pass of list_sort; the result is `output_run_cnt`. */
  method SortPass(list: List, less: (ListElem, ListElem) -> bool) returns (outputRunCnt: nat)
    requires list.Valid()
    modifies list`chain, list.repr
    ensures list.Valid()
    ensures list.Elems() == Pass(less, old(list.Elems()))
    ensures outputRunCnt == PassRuns(less, old(list.Elems()))
  {
    hide Pass, PassRuns, RunEnd, PassOutcome, OneRun;
    ghost var c, p := list.chain, 1;
    PassStart(less, c);
    ghost var goal, runs := PassOutcome(less, c, 1), PassRuns(less, c[1..|c| - 1]);
    outputRunCnt := 0;
    var a0 := list.Begin();
    while a0 != list.tail
      invariant list.Valid() && |list.chain| == |c|
      invariant 0 < p < |c| && a0 == list.chain[p]
      invariant PassOutcome(less, list.chain, p) == goal
      invariant outputRunCnt + PassRuns(less, list.chain[p..|c| - 1]) == runs
      decreases |c| - p
    {
      outputRunCnt := outputRunCnt + 1;
      var last, b1, h := MergeNextTwo(a0, list, less, p);
      if last {
        PassLast(less, list.chain, p);
        return;
      }
      a0, p := b1, h;
    }
    PassEnd(less, list.chain);
  }

  /** list_sort: the list ends up sorted, with equal elements in the order they came in. */
  method Sort(list: List, less: (ListElem, ListElem) -> bool, ghost S: set<ListElem>)
    requires list.Valid() && StrictWeak(less, S) && Within(list.Elems(), S)
    modifies list`chain, list.repr
    ensures list.Valid()
    ensures Sorted(less, list.Elems())
    ensures StableRearrangement(less, old(list.Elems()), list.Elems(), S)
    ensures list.Elems() == NaturalMerge.Sort(less, old(list.Elems()), S)
  {
    ghost var c := list.chain;
    ghost var goal := NaturalMerge.Sort(less, list.Elems(), S);
    SortCorrect(less, list.Elems(), S);
    PassFacts(less, list.Elems(), S);
    var outputRunCnt := SortPass(list, less);
    while outputRunCnt > 1
      invariant list.Valid() && Within(list.Elems(), S)
      invariant goal == if outputRunCnt <= 1 then list.Elems() else NaturalMerge.Sort(less, list.Elems(), S)
      decreases if outputRunCnt <= 1 then 0 else 1 + Runs(less, list.Elems())
    {
      PassFacts(less, list.Elems(), S);
      outputRunCnt := SortPass(list, less);
    }
  }

  lemma {:induction false} PassFacts<T>(less: (T, T) -> bool, s: seq<T>, S: set<T>)
    requires StrictWeak(less, S) && Within(s, S)
    ensures Within(Pass(less, s), S)
    ensures PassRuns(less, s) > 1 ==> Runs(less, Pass(less, s)) < Runs(less, s)
  {
    PassHalves(less, s); PassLeaves(less, s, S); PassElements(less, s); WithinSame(s, Pass(less, s), S);
  }
}
