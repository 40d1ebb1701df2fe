/** Bottom-up merge sort on sequences: what the in-place list sort computes, and why that is a stable sort. */
module MergeSort {
  import opened Bits

  ghost predicate TotalPreorder<T(!new)>(cmp: (T, T) -> int) {
    && (forall a, b :: cmp(a, b) <= 0 || cmp(b, a) <= 0)
    && (forall a, b, c :: cmp(a, b) <= 0 && cmp(b, c) <= 0 ==> cmp(a, c) <= 0)
  }

  ghost predicate Sorted<T>(s: seq<T>, cmp: (T, T) -> int) {
    forall i, j :: 0 <= i < j < |s| ==> cmp(s[i], s[j]) <= 0
  }

  /** The elements that compare equal to x, in order. */
  function EqualTo<T>(s: seq<T>, x: T, cmp: (T, T) -> int): seq<T> {
    if s == [] then [] else IfEqual(s[0], x, cmp) + EqualTo(s[1..], x, cmp)
  }

  function IfEqual<T>(a: T, x: T, cmp: (T, T) -> int): seq<T> {
    if cmp(a, x) <= 0 && cmp(x, a) <= 0 then [a] else []
  }

  /** The same elements, and those that compare equal stay in their order. */
  ghost predicate StablePermutation<T(!new)>(s: seq<T>, r: seq<T>, cmp: (T, T) -> int) {
    multiset(r) == multiset(s) && forall x :: EqualTo(r, x, cmp) == EqualTo(s, x, cmp)
  }

  /** Merging two runs: on a tie the left run goes first. */
  function Merge<T>(p: seq<T>, q: seq<T>, cmp: (T, T) -> int): (r: seq<T>)
    ensures |r| == |p| + |q|
  {
    if p == [] then q
    else if q == [] then p
    else if cmp(p[0], q[0]) <= 0 then [p[0]] + Merge(p[1..], q, cmp)
    else [q[0]] + Merge(p, q[1..], cmp)
  }

  /** One pass over the list, merging neighbouring runs of k elements. */
  function Pass<T>(s: seq<T>, k: nat, cmp: (T, T) -> int): (r: seq<T>)
    requires k > 0
    ensures |r| == |s|
  {
    if s == [] then []
    else
      var m, n := Min(k, |s|), Min(2 * k, |s|);
      Merge(s[..m], s[m..n], cmp) + Pass(s[n..], k, cmp)
  }

  /** Passes with doubling runs, until one pass makes at most one merge. */
  function Sort<T>(s: seq<T>, k: nat, cmp: (T, T) -> int): (r: seq<T>)
    requires k > 0
    ensures |r| == |s|
    decreases |s| - k
  {
    if |s| <= 2 * k then Pass(s, k, cmp) else Sort(Pass(s, k, cmp), 2 * k, cmp)
  }

  // Sequences

  lemma ConcatTail<T>(a: seq<T>, b: seq<T>)
    requires a != []
    ensures (a + b)[0] == a[0] && (a + b)[1..] == a[1..] + b
  {
  }

  lemma Assoc<T>(a: seq<T>, b: seq<T>, c: seq<T>)
    ensures a + (b + c) == (a + b) + c
  {
  }

  lemma Cut<T>(s: seq<T>, m: nat, n: nat)
    requires m <= n <= |s|
    ensures s[..n] == s[..m] + s[m..n] && s == s[..n] + s[n..]
    ensures s[m..][..n - m] == s[m..n] && s[m..][n - m..] == s[n..]
  {
  }

  // Sortedness

  ghost predicate Below<T>(x: T, s: seq<T>, cmp: (T, T) -> int) {
    forall i :: 0 <= i < |s| ==> cmp(x, s[i]) <= 0
  }

  lemma {:induction false} MergeBelow<T>(x: T, p: seq<T>, q: seq<T>, cmp: (T, T) -> int)
    requires Below(x, p, cmp) && Below(x, q, cmp)
    ensures Below(x, Merge(p, q, cmp), cmp)
    decreases |p| + |q|
  {
    if p != [] && q != [] {
      if cmp(p[0], q[0]) <= 0 {
        MergeBelow(x, p[1..], q, cmp);
      } else {
        MergeBelow(x, p, q[1..], cmp);
      }
    }
  }

  lemma SortedCons<T>(x: T, s: seq<T>, cmp: (T, T) -> int)
    requires Sorted(s, cmp) && Below(x, s, cmp)
    ensures Sorted([x] + s, cmp)
  {
  }

  lemma {:induction false} MergeSorted<T(!new)>(p: seq<T>, q: seq<T>, cmp: (T, T) -> int)
    requires TotalPreorder(cmp) && Sorted(p, cmp) && Sorted(q, cmp)
    ensures Sorted(Merge(p, q, cmp), cmp)
    decreases |p| + |q|
  {
    if p != [] && q != [] {
      if cmp(p[0], q[0]) <= 0 {
        MergeSorted(p[1..], q, cmp);
        assert Below(p[0], q, cmp);
        MergeBelow(p[0], p[1..], q, cmp);
        SortedCons(p[0], Merge(p[1..], q, cmp), cmp);
      } else {
        MergeSorted(p, q[1..], cmp);
        assert Below(q[0], p, cmp);
        MergeBelow(q[0], p, q[1..], cmp);
        SortedCons(q[0], Merge(p, q[1..], cmp), cmp);
      }
    }
  }

  /** Every run of k elements is sorted. */
  ghost predicate RunsSorted<T>(s: seq<T>, k: nat, cmp: (T, T) -> int)
    requires k > 0
    decreases |s|
  {
    s == [] || (Sorted(s[..Min(k, |s|)], cmp) && RunsSorted(s[Min(k, |s|)..], k, cmp))
  }

  lemma {:induction false} SingletonRuns<T>(s: seq<T>, cmp: (T, T) -> int)
    ensures RunsSorted(s, 1, cmp)
  {
    if s != [] {
      SingletonRuns(s[1..], cmp);
    }
  }

  lemma {:induction false} PassDoubles<T(!new)>(s: seq<T>, k: nat, cmp: (T, T) -> int)
    requires k > 0 && TotalPreorder(cmp) && RunsSorted(s, k, cmp)
    ensures RunsSorted(Pass(s, k, cmp), 2 * k, cmp)
    decreases |s|
  {
    if s != [] {
      var m, n := Min(k, |s|), Min(2 * k, |s|);
      NextRuns(s, k, cmp);
      MergeSorted(s[..m], s[m..n], cmp);
      PassDoubles(s[n..], k, cmp);
      var merged, r := Merge(s[..m], s[m..n], cmp), Pass(s, k, cmp);
      assert r[..n] == merged && r[n..] == Pass(s[n..], k, cmp);
    }
  }

  lemma {:induction false} SortSorts<T(!new)>(s: seq<T>, k: nat, cmp: (T, T) -> int)
    requires k > 0 && TotalPreorder(cmp) && RunsSorted(s, k, cmp)
    ensures Sorted(Sort(s, k, cmp), cmp)
    decreases |s| - k
  {
    PassDoubles(s, k, cmp);
    var r := Pass(s, k, cmp);
    if |s| <= 2 * k {
      assert r[..|r|] == r;
    } else {
      SortSorts(r, 2 * k, cmp);
    }
  }

  // Stability

  lemma {:induction false} EqualToConcat<T>(a: seq<T>, b: seq<T>, x: T, cmp: (T, T) -> int)
    ensures EqualTo(a + b, x, cmp) == EqualTo(a, x, cmp) + EqualTo(b, x, cmp)
  {
    if a == [] {
      assert a + b == b;
    } else {
      EqualToConcat(a[1..], b, x, cmp);
      ConcatTail(a, b);
      Assoc(IfEqual(a[0], x, cmp), EqualTo(a[1..], x, cmp), EqualTo(b, x, cmp));
    }
  }

  lemma {:induction false} NoneEqual<T>(s: seq<T>, x: T, cmp: (T, T) -> int)
    requires forall i :: 0 <= i < |s| ==> !(cmp(s[i], x) <= 0)
    ensures EqualTo(s, x, cmp) == []
  {
    if s != [] {
      NoneEqual(s[1..], x, cmp);
    }
  }

  lemma {:induction false} MergeStable<T(!new)>(p: seq<T>, q: seq<T>, x: T, cmp: (T, T) -> int)
    requires TotalPreorder(cmp) && Sorted(p, cmp)
    ensures EqualTo(Merge(p, q, cmp), x, cmp) == EqualTo(p, x, cmp) + EqualTo(q, x, cmp)
    decreases |p| + |q|
  {
    hide IfEqual, EqualTo;
    EqualToNil(x, cmp);
    if p == [] || q == [] {
      assert EqualTo(p, x, cmp) + [] == EqualTo(p, x, cmp) && [] + EqualTo(q, x, cmp) == EqualTo(q, x, cmp);
    } else if cmp(p[0], q[0]) <= 0 {
      MergeStable(p[1..], q, x, cmp);
      EqualToCons(p[0], Merge(p[1..], q, cmp), x, cmp);
      EqualToHead(p, x, cmp);
      Assoc(IfEqual(p[0], x, cmp), EqualTo(p[1..], x, cmp), EqualTo(q, x, cmp));
    } else {
      MergeStable(p, q[1..], x, cmp);
      EqualToCons(q[0], Merge(p, q[1..], cmp), x, cmp);
      EqualToHead(q, x, cmp);
      EqualsPass(p, q[0], x, cmp);
      Assoc(IfEqual(q[0], x, cmp), EqualTo(p, x, cmp), EqualTo(q[1..], x, cmp));
      Assoc(EqualTo(p, x, cmp), IfEqual(q[0], x, cmp), EqualTo(q[1..], x, cmp));
    }
  }

  lemma EqualToNil<T>(x: T, cmp: (T, T) -> int)
    ensures EqualTo([], x, cmp) == []
  {
  }

  lemma EqualToHead<T>(s: seq<T>, x: T, cmp: (T, T) -> int)
    requires s != []
    ensures EqualTo(s, x, cmp) == IfEqual(s[0], x, cmp) + EqualTo(s[1..], x, cmp)
  {
  }

  lemma EqualToCons<T>(a: T, s: seq<T>, x: T, cmp: (T, T) -> int)
    ensures EqualTo([a] + s, x, cmp) == IfEqual(a, x, cmp) + EqualTo(s, x, cmp)
  {
    assert ([a] + s)[1..] == s;
  }

  /** A right element that goes before the left run is equal to x only when nothing in the left run is. */
  lemma EqualsPass<T(!new)>(p: seq<T>, b: T, x: T, cmp: (T, T) -> int)
    requires TotalPreorder(cmp) && Sorted(p, cmp) && p != [] && cmp(p[0], b) > 0
    ensures IfEqual(b, x, cmp) + EqualTo(p, x, cmp) == EqualTo(p, x, cmp) + IfEqual(b, x, cmp)
  {
    hide EqualTo;
    if IfEqual(b, x, cmp) == [] {
      assert [] + EqualTo(p, x, cmp) == EqualTo(p, x, cmp) + [];
    } else {
      forall i | 0 <= i < |p| ensures !(cmp(p[i], x) <= 0) {
        assert cmp(p[0], p[i]) <= 0 || i == 0;
      }
      NoneEqual(p, x, cmp);
    }
  }

  lemma {:induction false} MergeElements<T>(p: seq<T>, q: seq<T>, cmp: (T, T) -> int)
    ensures multiset(Merge(p, q, cmp)) == multiset(p) + multiset(q)
    decreases |p| + |q|
  {
    if p != [] && q != [] {
      if cmp(p[0], q[0]) <= 0 {
        MergeElements(p[1..], q, cmp);
        FirstElement(p);
        ConsElements(p[0], Merge(p[1..], q, cmp));
      } else {
        MergeElements(p, q[1..], cmp);
        FirstElement(q);
        ConsElements(q[0], Merge(p, q[1..], cmp));
      }
    }
  }

  lemma FirstElement<T>(s: seq<T>)
    requires s != []
    ensures multiset(s) == multiset{s[0]} + multiset(s[1..])
  {
    assert s == [s[0]] + s[1..];
  }

  lemma ConsElements<T>(x: T, s: seq<T>)
    ensures multiset([x] + s) == multiset{x} + multiset(s)
  {
  }

  lemma {:induction false} PassElements<T>(s: seq<T>, k: nat, cmp: (T, T) -> int)
    requires k > 0
    ensures multiset(Pass(s, k, cmp)) == multiset(s)
    decreases |s|
  {
    hide Merge;
    if s != [] {
      var m, n := Min(k, |s|), Min(2 * k, |s|);
      PassElements(s[n..], k, cmp);
      MergeElements(s[..m], s[m..n], cmp);
      Cut(s, m, n);
    }
  }

  lemma {:induction false} PassEqual<T(!new)>(s: seq<T>, k: nat, x: T, cmp: (T, T) -> int)
    requires k > 0 && TotalPreorder(cmp) && RunsSorted(s, k, cmp)
    ensures EqualTo(Pass(s, k, cmp), x, cmp) == EqualTo(s, x, cmp)
    decreases |s|
  {
    hide EqualTo, Merge, RunsSorted, Sorted;
    if s != [] {
      var m, n := Min(k, |s|), Min(2 * k, |s|);
      NextRuns(s, k, cmp);
      PassEqual(s[n..], k, x, cmp);
      MergeStable(s[..m], s[m..n], x, cmp);
      EqualToConcat(Merge(s[..m], s[m..n], cmp), Pass(s[n..], k, cmp), x, cmp);
      EqualToConcat(s[..m], s[m..n], x, cmp);
      EqualToConcat(s[..n], s[n..], x, cmp);
      Cut(s, m, n);
    }
  }

  /** The two runs at the front are sorted, and so are the runs after them. */
  lemma NextRuns<T>(s: seq<T>, k: nat, cmp: (T, T) -> int)
    requires k > 0 && RunsSorted(s, k, cmp)
    ensures var m, n := Min(k, |s|), Min(2 * k, |s|);
            Sorted(s[..m], cmp) && Sorted(s[m..n], cmp) && RunsSorted(s[n..], k, cmp)
  {
    hide Sorted, RunsSorted;
    FirstRun(s, k, cmp);
    if s != [] {
      var m, n := Min(k, |s|), Min(2 * k, |s|);
      Cut(s, m, n);
      FirstRun(s[m..], k, cmp);
    }
  }

  lemma FirstRun<T>(s: seq<T>, k: nat, cmp: (T, T) -> int)
    requires k > 0 && RunsSorted(s, k, cmp)
    ensures Sorted(s[..Min(k, |s|)], cmp) && RunsSorted(s[Min(k, |s|)..], k, cmp)
  {
  }

  lemma {:induction false} SortStable<T(!new)>(s: seq<T>, k: nat, cmp: (T, T) -> int)
    requires k > 0 && TotalPreorder(cmp) && RunsSorted(s, k, cmp)
    ensures StablePermutation(s, Sort(s, k, cmp), cmp)
    decreases |s| - k
  {
    PassElements(s, k, cmp);
    forall x ensures EqualTo(Pass(s, k, cmp), x, cmp) == EqualTo(s, x, cmp) {
      PassEqual(s, k, x, cmp);
    }
    if |s| > 2 * k {
      PassDoubles(s, k, cmp);
      SortStable(Pass(s, k, cmp), 2 * k, cmp);
    }
  }

  /** The sort, started from runs of one element, sorts and is stable. */
  lemma SortCorrect<T(!new)>(s: seq<T>, cmp: (T, T) -> int)
    requires TotalPreorder(cmp)
    ensures Sorted(Sort(s, 1, cmp), cmp) && StablePermutation(s, Sort(s, 1, cmp), cmp)
  {
    SingletonRuns(s, cmp);
    SortSorts(s, 1, cmp);
    SortStable(s, 1, cmp);
  }

  // Ordered insertion

  /** The position of the first element that compares after x. */
  function InsertAt<T>(s: seq<T>, x: T, cmp: (T, T) -> int): (i: nat)
    ensures i <= |s|
    ensures forall j :: 0 <= j < i ==> cmp(s[j], x) <= 0
    ensures i < |s| ==> cmp(s[i], x) > 0
  {
    if s == [] || cmp(s[0], x) > 0 then 0 else 1 + InsertAt(s[1..], x, cmp)
  }

  function Inserted<T>(s: seq<T>, x: T, cmp: (T, T) -> int): seq<T> {
    var i := InsertAt(s, x, cmp);
    s[..i] + [x] + s[i..]
  }

  /** Ordered insertion into a sorted list keeps it sorted. */
  lemma InsertedSorted<T(!new)>(s: seq<T>, x: T, cmp: (T, T) -> int)
    requires TotalPreorder(cmp) && Sorted(s, cmp)
    ensures Sorted(Inserted(s, x, cmp), cmp)
  {
    hide InsertAt;
    var i, r := InsertAt(s, x, cmp), Inserted(s, x, cmp);
    forall j | i <= j < |s| ensures cmp(x, s[j]) <= 0 {
      assert i == j || cmp(s[i], s[j]) <= 0;
    }
    forall j, k | 0 <= j < k < |r| ensures cmp(r[j], r[k]) <= 0 {
      assert r[j] == (if j < i then s[j] else if j == i then x else s[j - 1]);
      assert r[k] == (if k < i then s[k] else if k == i then x else s[k - 1]);
    }
  }

  /** Ordered insertion puts the new element after its equals. */
  lemma InsertedAfterEquals<T(!new)>(s: seq<T>, x: T, cmp: (T, T) -> int)
    requires TotalPreorder(cmp) && Sorted(s, cmp)
    ensures EqualTo(Inserted(s, x, cmp), x, cmp) == EqualTo(s, x, cmp) + [x]
  {
    hide EqualTo, InsertAt;
    var i := InsertAt(s, x, cmp);
    var front, back := s[..i], s[i..];
    forall j | 0 <= j < |back| ensures !(cmp(back[j], x) <= 0) {
      assert j == 0 || cmp(s[i], s[i + j]) <= 0;
    }
    NoneEqual(back, x, cmp);
    assert s == front + back;
    EqualToConcat(front, back, x, cmp);
    EqualToConcat(front + [x], back, x, cmp);
    EqualToConcat(front, [x], x, cmp);
    EqualToSelf(x, cmp);
    assert EqualTo(front, x, cmp) + [] == EqualTo(front, x, cmp);
  }

  lemma EqualToSelf<T(!new)>(x: T, cmp: (T, T) -> int)
    requires TotalPreorder(cmp)
    ensures EqualTo([x], x, cmp) == [x]
  {
    assert cmp(x, x) <= 0;
    assert [x][1..] == [];
  }
}
