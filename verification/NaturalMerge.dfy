/**
 The theory behind `list_sort`: a natural merge sort over sequences.

 Everything here is about plain sequences and an arbitrary comparison `less`; the linked list that is
 rewritten in place is in `KernelList`, whose methods are proved equal to the functions defined here.
 */
module NaturalMerge {

  // ---------------------------------------------------------------- orders

  /** `less` is a strict weak order on the elements of `S`. */
  ghost predicate StrictWeak<T>(less: (T, T) -> bool, S: set<T>)
  {
    && (forall a, b | a in S && b in S :: !(less(a, b) && less(b, a)))
    && (forall a, b, c | a in S && b in S && c in S :: !less(b, a) && !less(c, b) ==> !less(c, a))
  }

  ghost predicate Within<T>(s: seq<T>, S: set<T>) {
    forall x | x in s :: x in S
  }

  ghost predicate Sorted<T>(less: (T, T) -> bool, s: seq<T>) {
    forall i, j | 0 <= i < j < |s| :: !less(s[j], s[i])
  }

  predicate Same<T>(less: (T, T) -> bool, x: T, y: T) {
    !less(x, y) && !less(y, x)
  }

  /** The elements of `s` that `less` cannot tell from `x`, in the order they have in `s`. */
  ghost function Class<T>(less: (T, T) -> bool, s: seq<T>, x: T): seq<T> {
    if s == [] then []
    else (if Same(less, x, s[0]) then [s[0]] else []) + Class(less, s[1..], x)
  }

  /** `t` is a rearrangement of `s` that never swaps two equal elements. */
  ghost predicate StableRearrangement<T>(less: (T, T) -> bool, s: seq<T>, t: seq<T>, S: set<T>) {
    && multiset(s) == multiset(t)
    && forall x | x in S :: Class(less, s, x) == Class(less, t, x)
  }

  // ---------------------------------------------------------------- runs and merging

  /** Number of places where an element is less than its predecessor. */
  ghost function Descents<T>(less: (T, T) -> bool, s: seq<T>): nat {
    if |s| <= 1 then 0 else (if less(s[1], s[0]) then 1 else 0) + Descents(less, s[1..])
  }

  /** Number of maximal nondecreasing runs. */
  ghost function Runs<T>(less: (T, T) -> bool, s: seq<T>): nat {
    if s == [] then 0 else 1 + Descents(less, s)
  }

  /** Exclusive end of the run that starts at the front of `s`. */
  ghost function RunEnd<T>(less: (T, T) -> bool, s: seq<T>): (n: nat)
    requires s != []
    ensures 1 <= n <= |s|
  {
    if |s| == 1 || less(s[1], s[0]) then 1 else 1 + RunEnd(less, s[1..])
  }

  ghost function Merge<T>(less: (T, T) -> bool, a: seq<T>, b: seq<T>): (c: seq<T>)
    decreases |a| + |b|
  {
    if a == [] then b
    else if b == [] then a
    else if !less(b[0], a[0]) then [a[0]] + Merge(less, a[1..], b)
    else [b[0]] + Merge(less, a, b[1..])
  }

  /** One pass of `list_sort`: adjacent runs are merged two by two. */
  ghost function Pass<T>(less: (T, T) -> bool, s: seq<T>): seq<T>
    decreases |s|
  {
    if s == [] then []
    else
      var m := RunEnd(less, s);
      if m == |s| then s
      else
        var h := m + RunEnd(less, s[m..]);
        Merge(less, s[..m], s[m..h]) + Pass(less, s[h..])
  }

  /** What `output_run_cnt` holds at the end of that pass. */
  ghost function PassRuns<T>(less: (T, T) -> bool, s: seq<T>): nat
    decreases |s|
  {
    if s == [] then 0
    else
      var m := RunEnd(less, s);
      if m == |s| then 1 else 1 + PassRuns(less, s[m + RunEnd(less, s[m..])..])
  }

  // ---------------------------------------------------------------- counting runs

  lemma {:induction false} DescentsConcat<T>(less: (T, T) -> bool, s: seq<T>, t: seq<T>)
    requires s != [] && t != []
    ensures Descents(less, s + t)
         == Descents(less, s) + (if less(t[0], s[|s| - 1]) then 1 else 0) + Descents(less, t)
  {
    if |s| == 1 {
      assert (s + t)[1..] == t;
    } else {
      assert (s + t)[1..] == s[1..] + t;
      DescentsConcat(less, s[1..], t);
    }
  }

  /** The run has no descent inside, and it cannot be made longer. */
  lemma {:induction false} RunEndMaximal<T>(less: (T, T) -> bool, s: seq<T>)
    requires s != []
    ensures Descents(less, s[..RunEnd(less, s)]) == 0
    ensures RunEnd(less, s) < |s| ==> less(s[RunEnd(less, s)], s[RunEnd(less, s) - 1])
  {
    var n := RunEnd(less, s);
    if n > 1 {
      RunEndMaximal(less, s[1..]);
      assert s[..n][1..] == s[1..][..n - 1];
    }
  }

  lemma {:induction false} SplitAtRunEnd<T>(less: (T, T) -> bool, s: seq<T>)
    requires s != []
    ensures var m := RunEnd(less, s);
            && Descents(less, s[..m]) == 0
            && Descents(less, s) == if m == |s| then 0 else 1 + Descents(less, s[m..])
  {
    var m := RunEnd(less, s);
    RunEndMaximal(less, s);
    if m == |s| {
      assert s[..m] == s;
    } else {
      assert s == s[..m] + s[m..];
      DescentsConcat(less, s[..m], s[m..]);
    }
  }

  lemma {:induction false} NoDescentsSorted<T>(less: (T, T) -> bool, s: seq<T>, S: set<T>)
    requires StrictWeak(less, S) && Within(s, S) && Descents(less, s) == 0
    ensures Sorted(less, s)
  {
    if |s| > 1 {
      NoDescentsSorted(less, s[1..], S);
      forall j | 1 <= j < |s| ensures !less(s[j], s[0]) {
        assert s[j] == s[1..][j - 1] && s[1] == s[1..][0];
      }
    }
  }

  lemma {:induction false} MergeNoDescents<T>(less: (T, T) -> bool, a: seq<T>, b: seq<T>, S: set<T>)
    requires StrictWeak(less, S) && Within(a, S) && Within(b, S)
    requires Descents(less, a) == 0 && Descents(less, b) == 0
    ensures Descents(less, Merge(less, a, b)) == 0
    decreases |a| + |b|
  {
    if a != [] && b != [] {
      if !less(b[0], a[0]) {
        MergeNoDescents(less, a[1..], b, S);
        assert Merge(less, a, b)[1..] == Merge(less, a[1..], b);
      } else {
        MergeNoDescents(less, a, b[1..], S);
        assert Merge(less, a, b)[1..] == Merge(less, a, b[1..]);
      }
    }
  }

  lemma {:induction false} PassUnfold<T>(less: (T, T) -> bool, s: seq<T>, m: nat, h: nat)
    requires s != [] && m == RunEnd(less, s) < |s| && h == m + RunEnd(less, s[m..])
    ensures Pass(less, s) == Merge(less, s[..m], s[m..h]) + Pass(less, s[h..])
    ensures PassRuns(less, s) == 1 + PassRuns(less, s[h..])
  {
    hide Merge, RunEnd;
  }

  ghost predicate OneRun<T>(less: (T, T) -> bool, s: seq<T>) {
    s == [] || RunEnd(less, s) == |s|
  }

  /** A pass over more than one run merges the first two and goes on with what follows them. */
  lemma {:induction false} PassSplit<T>(less: (T, T) -> bool, s: seq<T>) returns (a: seq<T>, b: seq<T>, z: seq<T>)
    requires !OneRun(less, s)
    ensures s == a + b + z && a != [] && b != []
    ensures Descents(less, a) == 0 && Descents(less, b) == 0
    ensures Pass(less, s) == Merge(less, a, b) + Pass(less, z)
    ensures PassRuns(less, s) == 1 + PassRuns(less, z)
    ensures Runs(less, s) == 2 + Runs(less, z)
  {
    hide Merge, Pass, PassRuns, RunEnd, Descents;
    var m := RunEnd(less, s);
    var n := RunEnd(less, s[m..]);
    a, b, z := s[..m], s[m..m + n], s[m + n..];
    ThreeParts(s, m, n);
    PassUnfold(less, s, m, m + n);
    SplitAtRunEnd(less, s);
    SplitAtRunEnd(less, s[m..]);
  }

  lemma {:induction false} ThreeParts<T>(s: seq<T>, m: nat, n: nat)
    requires m + n <= |s|
    ensures s == s[..m] + s[m..m + n] + s[m + n..] && s[m..][..n] == s[m..m + n] && s[m..][n..] == s[m + n..]
  {
  }

  lemma {:induction false} PassWhole<T>(less: (T, T) -> bool, s: seq<T>)
    requires OneRun(less, s)
    ensures Pass(less, s) == s && PassRuns(less, s) == Runs(less, s) && Descents(less, s) == 0
  {
    if s != [] { SplitAtRunEnd(less, s); }
  }

  /** A pass writes exactly half as many runs as it reads, rounded up. */
  lemma {:induction false} PassHalves<T>(less: (T, T) -> bool, s: seq<T>)
    ensures PassRuns(less, s) == (Runs(less, s) + 1) / 2
    decreases |s|
  {
    if OneRun(less, s) {
      PassWhole(less, s);
    } else {
      var a, b, z := PassSplit(less, s);
      PassHalves(less, z);
    }
  }

  lemma {:induction false} MergeElements<T>(less: (T, T) -> bool, a: seq<T>, b: seq<T>)
    ensures multiset(Merge(less, a, b)) == multiset(a) + multiset(b)
    ensures |Merge(less, a, b)| == |a| + |b|
    decreases |a| + |b|
  {
    if a != [] && b != [] {
      assert a == [a[0]] + a[1..] && b == [b[0]] + b[1..];
      if !less(b[0], a[0]) { MergeElements(less, a[1..], b); } else { MergeElements(less, a, b[1..]); }
    }
  }

  lemma {:induction false} PassElements<T>(less: (T, T) -> bool, s: seq<T>)
    ensures multiset(Pass(less, s)) == multiset(s)
    decreases |s|
  {
    if OneRun(less, s) {
      PassWhole(less, s);
    } else {
      var a, b, z := PassSplit(less, s);
      MergeElements(less, a, b);
      PassElements(less, z);
    }
  }

  lemma {:induction false} WithinSame<T>(s: seq<T>, t: seq<T>, S: set<T>)
    requires multiset(s) == multiset(t) && Within(s, S)
    ensures Within(t, S)
  {
    forall x | x in t ensures x in S {
      assert x in multiset(t);
    }
  }

  /** The list holds at most as many runs after the pass as the pass counted. */
  lemma {:induction false} PassLeaves<T>(less: (T, T) -> bool, s: seq<T>, S: set<T>)
    requires StrictWeak(less, S) && Within(s, S)
    ensures Runs(less, Pass(less, s)) <= PassRuns(less, s)
    decreases |s|
  {
    if OneRun(less, s) {
      PassWhole(less, s);
    } else {
      var a, b, z := PassSplit(less, s);
      var c, p := Merge(less, a, b), Pass(less, z);
      MergeNoDescents(less, a, b, S);
      MergeElements(less, a, b);
      PassLeaves(less, z, S);
      if p == [] { assert c + p == c; } else { DescentsConcat(less, c, p); }
    }
  }

  // ---------------------------------------------------------------- stability

  lemma {:induction false} ClassCons<T>(less: (T, T) -> bool, y: T, s: seq<T>, x: T)
    ensures Class(less, [y] + s, x) == if Same(less, x, y) then [y] + Class(less, s, x) else Class(less, s, x)
  {
    assert ([y] + s)[1..] == s;
  }

  lemma {:induction false} ClassNone<T>(less: (T, T) -> bool, x: T)
    ensures Class(less, [], x) == []
  {
  }

  lemma {:induction false} ClassConcat<T>(less: (T, T) -> bool, s: seq<T>, t: seq<T>, x: T)
    ensures Class(less, s + t, x) == Class(less, s, x) + Class(less, t, x)
  {
    hide Class, Same;
    if s == [] {
      ClassNone(less, x);
      assert s + t == t;
    } else {
      assert s + t == [s[0]] + (s[1..] + t) && s == [s[0]] + s[1..];
      ClassCons(less, s[0], s[1..] + t, x);
      ClassCons(less, s[0], s[1..], x);
      ClassConcat(less, s[1..], t, x);
    }
  }

  lemma {:induction false} ClassConcat3<T>(less: (T, T) -> bool, a: seq<T>, b: seq<T>, c: seq<T>, x: T)
    ensures Class(less, a + b + c, x) == Class(less, a, x) + Class(less, b, x) + Class(less, c, x)
  {
    ClassConcat(less, a, b, x);
    ClassConcat(less, a + b, c, x);
  }

  /** An element that must overtake all of `a` is in no class that meets `a`. */
  lemma {:induction false} ClassEmpty<T>(less: (T, T) -> bool, a: seq<T>, y: T, x: T, S: set<T>)
    requires StrictWeak(less, S) && Within(a, S) && x in S && y in S
    requires forall u | u in a :: less(y, u)
    requires Same(less, x, y)
    ensures Class(less, a, x) == []
  {
    if a != [] {
      assert a[0] in a;
      ClassEmpty(less, a[1..], y, x, S);
    }
  }

  lemma {:induction false} MergeUnfold<T>(less: (T, T) -> bool, a: seq<T>, b: seq<T>)
    ensures a == [] ==> Merge(less, a, b) == b
    ensures b == [] ==> Merge(less, a, b) == a
    ensures a != [] && b != [] ==>
      Merge(less, a, b) ==
      if !less(b[0], a[0]) then [a[0]] + Merge(less, a[1..], b) else [b[0]] + Merge(less, a, b[1..])
  {
  }

  lemma {:induction false} MergeStable<T>(less: (T, T) -> bool, a: seq<T>, b: seq<T>, x: T, S: set<T>)
    requires StrictWeak(less, S) && Within(a, S) && Within(b, S) && x in S
    requires Sorted(less, a)
    ensures Class(less, Merge(less, a, b), x) == Class(less, a, x) + Class(less, b, x)
    decreases |a| + |b|
  {
    hide Class, Merge, Same;
    MergeUnfold(less, a, b);
    if a == [] || b == [] {
      ClassNone(less, x);
    } else if !less(b[0], a[0]) {
      MergeStable(less, a[1..], b, x, S);
      assert a == [a[0]] + a[1..];
      ClassCons(less, a[0], a[1..], x);
      ClassCons(less, a[0], Merge(less, a[1..], b), x);
    } else {
      MergeStable(less, a, b[1..], x, S);
      assert b == [b[0]] + b[1..];
      ClassCons(less, b[0], b[1..], x);
      ClassCons(less, b[0], Merge(less, a, b[1..]), x);
      if Same(less, x, b[0]) { OvertakenClass(less, a, b[0], x, S); }
    }
  }

  lemma {:induction false} OvertakenClass<T>(less: (T, T) -> bool, a: seq<T>, y: T, x: T, S: set<T>)
    requires StrictWeak(less, S) && Within(a, S) && y in S && x in S && Same(less, x, y)
    requires a != [] && Sorted(less, a) && less(y, a[0])
    ensures Class(less, a, x) == []
  {
    forall u | u in a ensures less(y, u) {
      var i :| 0 <= i < |a| && a[i] == u;
      assert a[0] in a;
      assert !less(u, a[0]) by { if i == 0 { assert !(less(u, u) && less(u, u)); } }
    }
    ClassEmpty(less, a, y, x, S);
  }

  lemma {:induction false} PassStable<T>(less: (T, T) -> bool, s: seq<T>, x: T, S: set<T>)
    requires StrictWeak(less, S) && Within(s, S) && x in S
    ensures Class(less, Pass(less, s), x) == Class(less, s, x)
    decreases |s|
  {
    if OneRun(less, s) {
      PassWhole(less, s);
    } else {
      var a, b, z := PassSplit(less, s);
      NoDescentsSorted(less, a, S);
      MergeStable(less, a, b, x, S);
      PassStable(less, z, x, S);
      ClassConcat(less, Merge(less, a, b), Pass(less, z), x);
      ClassConcat3(less, a, b, z, x);
    }
  }

  // ---------------------------------------------------------------- the whole sort

  /** Passes are repeated until one of them writes at most one run. */
  ghost function Sort<T>(less: (T, T) -> bool, s: seq<T>, S: set<T>): seq<T>
    requires StrictWeak(less, S) && Within(s, S)
    decreases Runs(less, s)
  {
    var p := Pass(less, s);
    PassHalves(less, s); PassLeaves(less, s, S); PassElements(less, s); WithinSame(s, p, S);
    if PassRuns(less, s) <= 1 then p else Sort(less, p, S)
  }

  lemma {:induction false} SortCorrect<T>(less: (T, T) -> bool, s: seq<T>, S: set<T>)
    requires StrictWeak(less, S) && Within(s, S)
    ensures Sorted(less, Sort(less, s, S))
    ensures StableRearrangement(less, s, Sort(less, s, S), S)
    decreases Runs(less, s)
  {
    var p := Pass(less, s);
    PassHalves(less, s); PassLeaves(less, s, S); PassElements(less, s); WithinSame(s, p, S);
    forall x | x in S ensures Class(less, p, x) == Class(less, s, x) { PassStable(less, s, x, S); }
    if PassRuns(less, s) <= 1 {
      NoDescentsSorted(less, p, S);
    } else {
      SortCorrect(less, p, S);
    }
  }

  lemma {:induction false} ClassMember<T>(less: (T, T) -> bool, s: seq<T>, x: T)
    ensures forall y | y in Class(less, s, x) :: y in s && Same(less, x, y)
    ensures x in s && Same(less, x, x) ==> x in Class(less, s, x)
  {
    if s != [] {
      ClassMember(less, s[1..], x);
    }
  }

  /** Sortedness and stability leave no freedom: any two such rearrangements are the same sequence. */
  lemma {:induction false} StableSortUnique<T>(less: (T, T) -> bool, t: seq<T>, u: seq<T>, S: set<T>)
    requires StrictWeak(less, S) && Within(t, S) && Within(u, S)
    requires Sorted(less, t) && Sorted(less, u) && |t| == |u|
    requires forall x | x in S :: Class(less, t, x) == Class(less, u, x)
    ensures t == u
  {
    if t != [] {
      var a, b := t[0], u[0];
      assert a in t && b in u;
      assert Same(less, a, a) && Same(less, b, b) by {
        assert !(less(a, a) && less(a, a));
        assert !(less(b, b) && less(b, b));
      }
      ClassMember(less, t, a); ClassMember(less, u, a); ClassMember(less, t, b); ClassMember(less, u, b);
      assert a in u && b in t;
      assert Same(less, a, b);
      assert Class(less, t, a)[0] == a && Class(less, u, a)[0] == b;
      hide Class, Same, Sorted;
      forall x | x in S ensures Class(less, t[1..], x) == Class(less, u[1..], x) { ClassTails(less, t, u, x); }
      SortedTail(less, t);
      SortedTail(less, u);
      StableSortUnique(less, t[1..], u[1..], S);
    }
  }

  lemma {:induction false} ClassTails<T>(less: (T, T) -> bool, t: seq<T>, u: seq<T>, x: T)
    requires t != [] && u != [] && t[0] == u[0] && Class(less, t, x) == Class(less, u, x)
    ensures Class(less, t[1..], x) == Class(less, u[1..], x)
  {
    hide Class, Same;
    var a, p, q := t[0], Class(less, t[1..], x), Class(less, u[1..], x);
    assert t == [a] + t[1..] && u == [a] + u[1..];
    ClassCons(less, a, t[1..], x);
    ClassCons(less, a, u[1..], x);
    assert ([a] + p)[1..] == p && ([a] + q)[1..] == q;
  }

  lemma {:induction false} SortedTail<T>(less: (T, T) -> bool, s: seq<T>)
    requires s != [] && Sorted(less, s)
    ensures Sorted(less, s[1..])
  {
  }
}
