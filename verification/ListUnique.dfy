/** list_unique (lib/kernel/list.c): adjacent equal elements move from one linked list to another. */
module ListUnique {
  import opened NaturalMerge
  import opened KernelList

  /** What is kept, and what is dropped, of `s` after `x`. */
  ghost function Kept<T>(less: (T, T) -> bool, x: T, s: seq<T>): seq<T>
    decreases |s|
  {
    if s == [] then [] else if Same(less, x, s[0]) then Kept(less, x, s[1..]) else [s[0]] + Kept(less, s[0], s[1..])
  }

  ghost function Dropped<T>(less: (T, T) -> bool, x: T, s: seq<T>): seq<T>
    decreases |s|
  {
    if s == [] then []
    else if Same(less, x, s[0]) then [s[0]] + Dropped(less, x, s[1..])
    else Dropped(less, s[0], s[1..])
  }

  ghost function Unique<T>(less: (T, T) -> bool, s: seq<T>): seq<T> {
    if s == [] then [] else [s[0]] + Kept(less, s[0], s[1..])
  }

  ghost function Duplicates<T>(less: (T, T) -> bool, s: seq<T>): seq<T> {
    if s == [] then [] else Dropped(less, s[0], s[1..])
  }

  /** No element is lost. */
  lemma {:induction false} AllThere<T>(less: (T, T) -> bool, x: T, s: seq<T>)
    ensures multiset(Kept(less, x, s)) + multiset(Dropped(less, x, s)) == multiset(s)
    decreases |s|
  {
    if s != [] {
      assert s == [s[0]] + s[1..];
      AllThere(less, if Same(less, x, s[0]) then x else s[0], s[1..]);
    }
  }

  ghost predicate StrictlySorted<T>(less: (T, T) -> bool, s: seq<T>) {
    forall i, j | 0 <= i < j < |s| :: less(s[i], s[j])
  }

  /** On a sorted list one element of each class is left, in order. */
  lemma {:induction false} KeptSorted<T>(less: (T, T) -> bool, x: T, s: seq<T>, S: set<T>)
    requires StrictWeak(less, S) && Within([x] + s, S) && Sorted(less, [x] + s)
    ensures StrictlySorted(less, [x] + Kept(less, x, s)) && Within([x] + Kept(less, x, s), S)
    ensures forall y | y in s :: exists z :: z in [x] + Kept(less, x, s) && Same(less, z, y)
    decreases |s|
  {
    if s != [] {
      var a, rest := s[0], s[1..];
      var t := [x] + s;
      assert t[0] == x && t[1] == a && s == [a] + rest;
      forall y | y in [x] + rest ensures y in S { assert y in t; }
      forall i, j | 0 <= i < j < |[x] + rest| ensures !less(([x] + rest)[j], ([x] + rest)[i]) {
        assert ([x] + rest)[j] == t[j + 1] && ([x] + rest)[i] == t[if i == 0 then 0 else i + 1];
      }
      forall i, j | 0 <= i < j < |s| ensures !less(s[j], s[i]) { assert s[j] == t[j + 1] && s[i] == t[i + 1]; }
      if Same(less, x, a) {
        KeptSorted(less, x, rest, S);
        forall y | y in s ensures exists z :: z in [x] + Kept(less, x, s) && Same(less, z, y) {
          if y == a { assert x in [x] + Kept(less, x, s); }
        }
      } else {
        forall y | y in s ensures y in S { assert y in t; }
        KeptSorted(less, a, rest, S);
        KeptStep(less, x, a, Kept(less, a, rest), S);
        Covered(less, x, a, rest, S);
      }
    }
  }

  lemma {:induction false} KeptStep<T>(less: (T, T) -> bool, x: T, a: T, k: seq<T>, S: set<T>)
    requires StrictWeak(less, S) && x in S && Within([a] + k, S) && StrictlySorted(less, [a] + k) && less(x, a)
    ensures StrictlySorted(less, [x] + ([a] + k))
  {
    var t, u := [a] + k, [x] + ([a] + k);
    forall j | 0 <= j < |t| ensures less(x, t[j]) {
      assert t[j] in t && t[0] == a;
      if j > 0 { assert less(t[0], t[j]); }
    }
    forall i, j | 0 <= i < j < |u| ensures less(u[i], u[j]) {
      assert u[j] == t[j - 1];
      if i > 0 { assert u[i] == t[i - 1]; }
    }
  }

  lemma {:induction false} Covered<T>(less: (T, T) -> bool, x: T, a: T, rest: seq<T>, S: set<T>)
    requires StrictWeak(less, S) && a in S
    requires forall y | y in rest :: exists z :: z in [a] + Kept(less, a, rest) && Same(less, z, y)
    ensures forall y | y in [a] + rest :: exists z :: z in [x] + ([a] + Kept(less, a, rest)) && Same(less, z, y)
  {
    var k := [a] + Kept(less, a, rest);
    forall y | y in [a] + rest ensures exists z :: z in [x] + k && Same(less, z, y) {
      if y in rest {
        var z :| z in k && Same(less, z, y);
        assert z in [x] + k;
      } else {
        assert y == a && a in [x] + k && Same(less, a, a);
      }
    }
  }

  /** The elements of `s` whose flag is set, in order. */
  ghost function Pick<T>(s: seq<T>, flags: seq<bool>): seq<T>
    requires |flags| == |s|
  {
    if s == [] then [] else (if flags[0] then [s[0]] else []) + Pick(s[1..], flags[1..])
  }

  /** Which elements of `s` differ from the one before, or from `x` for the first, or else are the same. */
  ghost function Differ<T>(less: (T, T) -> bool, x: T, s: seq<T>, differ: bool): seq<bool> {
    seq(|s|, i requires 0 <= i < |s| => Same(less, if i == 0 then x else s[i - 1], s[i]) != differ)
  }

  lemma {:induction false} DifferRest<T>(less: (T, T) -> bool, x: T, s: seq<T>, differ: bool)
    requires s != []
    ensures Differ(less, x, s, differ)[1..] == Differ(less, s[0], s[1..], differ)
    ensures Differ(less, x, s, differ)[0] == (Same(less, x, s[0]) != differ)
  {
  }

  /** After `x` is kept and an element `y` the same as `x` was the last one looked at. */
  lemma {:induction false} KeptIs<T>(less: (T, T) -> bool, x: T, y: T, s: seq<T>, S: set<T>)
    requires StrictWeak(less, S) && x in S && y in S && Within(s, S) && Same(less, x, y)
    ensures Kept(less, x, s) == Pick(s, Differ(less, y, s, true))
    ensures Dropped(less, x, s) == Pick(s, Differ(less, y, s, false))
    decreases |s|
  {
    if s != [] {
      hide Differ;
      DifferRest(less, y, s, true);
      DifferRest(less, y, s, false);
      assert s[0] in S && Within(s[1..], S);
      assert Same(less, x, s[0]) == Same(less, y, s[0]);
      KeptIs(less, if Same(less, x, s[0]) then x else s[0], s[0], s[1..], S);
    }
  }

  /** Under any strict weak order the elements left are the first and each that differs from the one before it; the
      others are the duplicates; both in the order they had. */
  lemma {:induction false} UniqueIs<T>(less: (T, T) -> bool, s: seq<T>, S: set<T>)
    requires StrictWeak(less, S) && Within(s, S)
    ensures s != [] ==>
      && Unique(less, s) == [s[0]] + Pick(s[1..], Differ(less, s[0], s[1..], true))
      && Duplicates(less, s) == Pick(s[1..], Differ(less, s[0], s[1..], false))
    ensures s == [] ==> Unique(less, s) == Duplicates(less, s) == []
  {
    if s != [] {
      assert s[0] in S && Within(s[1..], S);
      KeptIs(less, s[0], s[0], s[1..], S);
    }
  }

  // ---------------------------------------------------------------- the linked list

  /** What is left to do once everything up to index `k` of the chain is settled. */
  ghost predicate Settled(less: (ListElem, ListElem) -> bool, c: seq<ListElem>, k: nat, kept: seq<ListElem>,
                          dropped: seq<ListElem>, was: seq<ListElem>, had: seq<ListElem>) {
    && 0 < k < |c| - 1
    && c[1..k + 1] + Kept(less, c[k], c[k + 1..|c| - 1]) == kept
    && had + Dropped(less, c[k], c[k + 1..|c| - 1]) == was + dropped
  }

  lemma {:induction false} SettledStart(less: (ListElem, ListElem) -> bool, c: seq<ListElem>, was: seq<ListElem>)
    requires |c| > 2
    ensures var s := c[1..|c| - 1]; Settled(less, c, 1, Unique(less, s), Duplicates(less, s), was, was)
  {
    var s := c[1..|c| - 1];
    assert c[1..2] == [s[0]] && c[2..|c| - 1] == s[1..];
  }

  lemma {:induction false} SettleOne(less: (ListElem, ListElem) -> bool, c: seq<ListElem>, k: nat, kept: seq<ListElem>,
                                     dropped: seq<ListElem>, was: seq<ListElem>, had: seq<ListElem>)
    requires Settled(less, c, k, kept, dropped, was, had) && k + 1 < |c| - 1
    ensures Same(less, c[k], c[k + 1]) ==>
      Settled(less, c[..k + 1] + c[k + 2..], k, kept, dropped, was, had + [c[k + 1]])
    ensures !Same(less, c[k], c[k + 1]) ==> Settled(less, c, k + 1, kept, dropped, was, had)
  {
    var s := c[k + 1..|c| - 1];
    assert s[0] == c[k + 1] && s[1..] == c[k + 2..|c| - 1];
    if Same(less, c[k], c[k + 1]) {
      var d := c[..k + 1] + c[k + 2..];
      assert d[1..k + 1] == c[1..k + 1] && d[k] == c[k] && d[k + 1..|d| - 1] == s[1..];
      assert had + ([s[0]] + Dropped(less, c[k], s[1..])) == had + [s[0]] + Dropped(less, c[k], s[1..]);
    } else {
      assert c[1..k + 2] == c[1..k + 1] + [s[0]];
      assert c[1..k + 1] + ([s[0]] + Kept(less, s[0], s[1..])) == c[1..k + 1] + [s[0]] + Kept(less, s[0], s[1..]);
    }
  }

  lemma {:induction false} SettledEnd(less: (ListElem, ListElem) -> bool, c: seq<ListElem>, kept: seq<ListElem>,
                                      dropped: seq<ListElem>, was: seq<ListElem>, had: seq<ListElem>)
    requires |c| > 2 && Settled(less, c, |c| - 2, kept, dropped, was, had)
    ensures c[1..|c| - 1] == kept && had == was + dropped
  {
    assert c[|c| - 1..|c| - 1] == [];
  }

  /** The nodes of a list that may be missing. */
  ghost function Nodes(l: List?): set<ListElem>
    reads l
  {
    if l == null then {} else l.repr
  }

  ghost predicate TwoLists(a: List, b: List?)
    reads a, a.repr, b, Nodes(b)
  {
    && a.Valid() && |a.chain| >= 2
    && (b != null ==> a != b && b.Valid() && a.repr !! b.repr && |b.chain| >= 2)
  }

  /** list_remove from one list, then list_push_back on the other if there is one. */
  method MoveOver(next: ListElem, list: List, duplicates: List?, ghost k: nat)
    requires TwoLists(list, duplicates) && 0 < k < |list.chain| - 1 && next == list.chain[k]
    modifies list, list.repr, duplicates, Nodes(duplicates)
    ensures TwoLists(list, duplicates) && list.repr + Nodes(duplicates) <= old(list.repr + Nodes(duplicates))
    ensures list.chain == old(list.chain)[..k] + old(list.chain)[k + 1..]
    ensures duplicates != null ==> duplicates.Elems() == old(duplicates.Elems()) + [next]
  {
    assert next in list.repr;
    var _ := Remove(next, list, k);
    if duplicates != null {
      duplicates.PushBack(next);
    }
  }

  /** list_unique; the list for the duplicates may be missing. */
  method MakeUnique(list: List, duplicates: List?, less: (ListElem, ListElem) -> bool)
    requires TwoLists(list, duplicates)
    modifies list, list.repr, duplicates, Nodes(duplicates)
    ensures TwoLists(list, duplicates)
    ensures list.Elems() == Unique(less, old(list.Elems()))
    ensures duplicates != null ==> duplicates.Elems() == old(duplicates.Elems()) + Duplicates(less, old(list.Elems()))
  {
    var empty := list.Empty();
    if empty {
      return;
    }
    UniqueLoop(list, duplicates, less);
  }

  method UniqueLoop(list: List, duplicates: List?, less: (ListElem, ListElem) -> bool)
    requires TwoLists(list, duplicates) && |list.chain| > 2
    modifies list, list.repr, duplicates, Nodes(duplicates)
    ensures TwoLists(list, duplicates)
    ensures list.Elems() == Unique(less, old(list.Elems()))
    ensures duplicates != null ==> duplicates.Elems() == old(duplicates.Elems()) + Duplicates(less, old(list.Elems()))
  {
    hide Settled, Unique, Duplicates, TwoLists, List.Valid, Working;
    BothThere(list, duplicates);
    ghost var was := if duplicates == null then [] else duplicates.Elems();
    ghost var kept, dropped := Unique(less, list.Elems()), Duplicates(less, list.Elems());
    SettledStart(less, list.chain, was);
    ghost var k, had := 1, was;
    WorkStarts(list, duplicates, less, k, kept, dropped, was, had);
    var elem := list.Begin();
    var next, going := After(elem, list, k);
    while going
      invariant list.repr + Nodes(duplicates) <= old(list.repr + Nodes(duplicates))
      invariant Working(list, duplicates, less, k, kept, dropped, was, had)
      invariant 0 < k < |list.chain| - 1 && elem == list.chain[k] && next == list.chain[k + 1]
      invariant going <==> k + 1 < |list.chain| - 1
      decreases |list.chain| - k
    {
      elem, next, going, k, had := Round(elem, next, list, duplicates, less, k, kept, dropped, was, had);
    }
    WorkEnds(list, duplicates, less, k, kept, dropped, was, had);
  }

  /** Everything up to index `k` of the chain is settled, and the list of duplicates holds `had`. */
  ghost predicate Working(list: List, duplicates: List?, less: (ListElem, ListElem) -> bool, k: nat,
                          kept: seq<ListElem>, dropped: seq<ListElem>, was: seq<ListElem>, had: seq<ListElem>)
    reads list, list.repr, duplicates, Nodes(duplicates)
  {
    && TwoLists(list, duplicates) && Settled(less, list.chain, k, kept, dropped, was, had)
    && (duplicates != null ==> had == duplicates.Elems())
  }

  lemma {:induction false} WorkStarts(list: List, duplicates: List?, less: (ListElem, ListElem) -> bool, k: nat,
                                      kept: seq<ListElem>, dropped: seq<ListElem>, was: seq<ListElem>,
                                      had: seq<ListElem>)
    requires TwoLists(list, duplicates) && Settled(less, list.chain, k, kept, dropped, was, had)
    requires duplicates != null ==> |duplicates.chain| >= 2 && had == duplicates.Elems()
    ensures Working(list, duplicates, less, k, kept, dropped, was, had)
  {
    hide List.Valid, Settled;
  }

  lemma {:induction false} WorkEnds(list: List, duplicates: List?, less: (ListElem, ListElem) -> bool, k: nat,
                                    kept: seq<ListElem>, dropped: seq<ListElem>, was: seq<ListElem>, had: seq<ListElem>)
    requires Working(list, duplicates, less, k, kept, dropped, was, had) && k + 1 == |list.chain| - 1
    ensures TwoLists(list, duplicates) && |list.chain| >= 2 && list.Elems() == kept
    ensures duplicates != null ==> |duplicates.chain| >= 2 && duplicates.Elems() == was + dropped
  {
    assert |list.chain| > 2;
    hide List.Valid, Settled;
    SettledEnd(less, list.chain, kept, dropped, was, had);
  }

  /** One round of the loop: the next element goes over to the duplicates, or becomes the current one. */
  method Round(elem: ListElem, next: ListElem, list: List, duplicates: List?, less: (ListElem, ListElem) -> bool,
               ghost k: nat, ghost kept: seq<ListElem>, ghost dropped: seq<ListElem>, ghost was: seq<ListElem>,
               ghost had: seq<ListElem>)
    returns (e: ListElem, n: ListElem, going: bool, ghost k': nat, ghost had': seq<ListElem>)
    requires Working(list, duplicates, less, k, kept, dropped, was, had)
    requires 0 < k && k + 1 < |list.chain| - 1 && elem == list.chain[k] && next == list.chain[k + 1]
    modifies list, list.repr, duplicates, Nodes(duplicates)
    ensures list.repr + Nodes(duplicates) <= old(list.repr + Nodes(duplicates))
    ensures Working(list, duplicates, less, k', kept, dropped, was, had')
    ensures 0 < k' < |list.chain| - 1 && e == list.chain[k'] && n == list.chain[k' + 1]
    ensures (going <==> k' + 1 < |list.chain| - 1) && |list.chain| - k' < old(|list.chain|) - k
  {
    hide List.Valid, Settled;
    SettleOne(less, list.chain, k, kept, dropped, was, had);
    if !less(elem, next) && !less(next, elem) {
      MoveOver(next, list, duplicates, k + 1);
      e, k', had' := elem, k, had + [next];
    } else {
      e, k', had' := next, k + 1, had;
    }
    n, going := After(e, list, k');
  }

  lemma {:induction false} BothThere(a: List, b: List?)
    requires TwoLists(a, b)
    ensures a.Valid() && |a.chain| >= 2 && (b != null ==> |b.chain| >= 2)
  {
  }

  /** The next element, and whether it is one of the list. */
  method After(elem: ListElem, list: List, ghost k: nat) returns (next: ListElem, going: bool)
    requires list.Valid() && k < |list.chain| - 1 && elem == list.chain[k]
    ensures next == list.chain[k + 1] && (going <==> k + 1 < |list.chain| - 1)
  {
    next := Next(elem, list, k);
    going := !AtTail(list, next, k + 1);
  }

  /** e == list_end (list). */
  predicate AtTail(list: List, e: ListElem, ghost k: nat)
    requires list.Valid() && k < |list.chain| && e == list.chain[k]
    reads list, list.repr
    ensures AtTail(list, e, k) <==> k == |list.chain| - 1
  {
    SamePlace(list, k, |list.chain| - 1);
    e == list.tail
  }
}
