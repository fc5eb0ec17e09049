/** What HASH_SRT and ordered insertion compute, on sequences of elements. */
module StableSort {
  import opened Elements
  import opened Bits

  /** `cmpfcn`: not positive when the first argument may stay in front of the second. */
  type Compare = (Data, Data) -> int

  ghost predicate TotalPreorder(cmp: Compare) {
    && (forall a, b :: cmp(a, b) <= 0 || cmp(b, a) <= 0)
    && (forall a, b, c :: cmp(a, b) <= 0 && cmp(b, c) <= 0 ==> cmp(a, c) <= 0)
  }

  ghost predicate Sorted(cmp: Compare, l: seq<Element>) {
    forall i, j :: 0 <= i < j < |l| ==> cmp(l[i].data, l[j].data) <= 0
  }

  ghost predicate Equivalent(cmp: Compare, a: Data, b: Data) {
    cmp(a, b) <= 0 && cmp(b, a) <= 0
  }

  /** The elements of `l` that compare equal to `d`, in their order in `l`. */
  ghost function Class(cmp: Compare, l: seq<Element>, d: Data): seq<Element> {
    if l == [] then []
    else (if Equivalent(cmp, l[0].data, d) then [l[0]] else []) + Class(cmp, l[1..], d)
  }

  /** `r` holds the elements of `l`, and equal ones keep their order. */
  ghost predicate StablePermutation(cmp: Compare, l: seq<Element>, r: seq<Element>) {
    multiset(l) == multiset(r) && forall d :: Class(cmp, l, d) == Class(cmp, r, d)
  }

  // ----- the merge sort

  function Merge(cmp: Compare, p: seq<Element>, q: seq<Element>): (m: seq<Element>)
    ensures |m| == |p| + |q|
  {
    if p == [] then q
    else if q == [] then p
    else if cmp(p[0].data, q[0].data) <= 0 then [p[0]] + Merge(cmp, p[1..], q)
    else [q[0]] + Merge(cmp, p, q[1..])
  }

  /** One pass of HASH_SRT: neighbouring runs of `size` elements are merged pairwise. */
  function MergePass(cmp: Compare, l: seq<Element>, size: nat): (m: seq<Element>)
    requires size > 0
    ensures |m| == |l|
    decreases |l|
  {
    if l == [] then []
    else
      var mid, end := Min(size, |l|), Min(2 * size, |l|);
      Merge(cmp, l[..mid], l[mid..end]) + MergePass(cmp, l[end..], size)
  }

  /** The passes of HASH_SRT from run size `size` on; the last is the one that merges at most one pair. */
  function MergePasses(cmp: Compare, l: seq<Element>, size: nat): (m: seq<Element>)
    requires size > 0
    ensures |m| == |l|
    decreases |l| - size
  {
    if |l| <= 2 * size then MergePass(cmp, l, size) else MergePasses(cmp, MergePass(cmp, l, size), 2 * size)
  }

  function MergeSort(cmp: Compare, l: seq<Element>): seq<Element> {
    MergePasses(cmp, l, 1)
  }

  /** Every maximal run of `size` elements, counted from the front, is sorted. */
  ghost predicate SortedBlocks(cmp: Compare, l: seq<Element>, size: nat)
    requires size > 0
    decreases |l|
  {
    l == [] || (Sorted(cmp, l[..Min(size, |l|)]) && SortedBlocks(cmp, l[Min(size, |l|)..], size))
  }

  // ----- classes and permutations

  lemma {:induction false} ClassOfConcat(cmp: Compare, a: seq<Element>, b: seq<Element>, d: Data)
    ensures Class(cmp, a + b, d) == Class(cmp, a, d) + Class(cmp, b, d)
  {
    hide Equivalent;
    if a == [] {
      assert a + b == b;
    } else {
      ClassOfConcat(cmp, a[1..], b, d);
      assert (a + b)[1..] == a[1..] + b && (a + b)[0] == a[0];
    }
  }

  lemma {:induction false} ClassEmpty(cmp: Compare, l: seq<Element>, d: Data)
    requires forall i :: 0 <= i < |l| ==> !Equivalent(cmp, l[i].data, d)
    ensures Class(cmp, l, d) == []
  {
    if l != [] {
      ClassEmpty(cmp, l[1..], d);
    }
  }

  lemma {:induction false} ClassOfEquivalent(cmp: Compare, l: seq<Element>, d: Data, e: Data)
    requires TotalPreorder(cmp) && Equivalent(cmp, d, e)
    ensures Class(cmp, l, d) == Class(cmp, l, e)
  {
    if l != [] {
      ClassOfEquivalent(cmp, l[1..], d, e);
    }
  }

  lemma {:induction false} MergeIsPermutation(cmp: Compare, p: seq<Element>, q: seq<Element>)
    ensures multiset(Merge(cmp, p, q)) == multiset(p) + multiset(q)
  {
    if p != [] && q != [] {
      assert p == [p[0]] + p[1..] && q == [q[0]] + q[1..];
      if cmp(p[0].data, q[0].data) <= 0 {
        MergeIsPermutation(cmp, p[1..], q);
      } else {
        MergeIsPermutation(cmp, p, q[1..]);
      }
    }
  }

  lemma {:induction false} MergeIsStable(cmp: Compare, p: seq<Element>, q: seq<Element>, d: Data)
    requires TotalPreorder(cmp) && Sorted(cmp, p)
    ensures Class(cmp, Merge(cmp, p, q), d) == Class(cmp, p, d) + Class(cmp, q, d)
  {
    hide Sorted, Class, TotalPreorder;
    if p == [] || q == [] {
      assert Class(cmp, [], d) == [] by {
        ClassEmpty(cmp, [], d);
      }
    } else if cmp(p[0].data, q[0].data) <= 0 {
      SortedRest(cmp, p);
      MergeIsStable(cmp, p[1..], q, d);
      TakeFirstIsStable(cmp, p, q, Merge(cmp, p[1..], q), d);
    } else {
      MergeIsStable(cmp, p, q[1..], d);
      LaterClassIsApart(cmp, p, q[0], d);
      TakeSecondIsStable(cmp, p, q, Merge(cmp, p, q[1..]), d);
    }
  }

  lemma TakeFirstIsStable(cmp: Compare, p: seq<Element>, q: seq<Element>, m: seq<Element>, d: Data)
    requires p != [] && Class(cmp, m, d) == Class(cmp, p[1..], d) + Class(cmp, q, d)
    ensures Class(cmp, [p[0]] + m, d) == Class(cmp, p, d) + Class(cmp, q, d)
  {
    hide *;
    ClassOfConcat(cmp, [p[0]], m, d);
    ClassOfConcat(cmp, [p[0]], p[1..], d);
    assert p == [p[0]] + p[1..];
  }

  lemma TakeSecondIsStable(cmp: Compare, p: seq<Element>, q: seq<Element>, m: seq<Element>, d: Data)
    requires q != [] && Class(cmp, m, d) == Class(cmp, p, d) + Class(cmp, q[1..], d)
    requires Class(cmp, [q[0]], d) == [] || Class(cmp, p, d) == []
    ensures Class(cmp, [q[0]] + m, d) == Class(cmp, p, d) + Class(cmp, q, d)
  {
    hide *;
    ClassOfConcat(cmp, [q[0]], m, d);
    ClassOfConcat(cmp, [q[0]], q[1..], d);
    assert q == [q[0]] + q[1..];
  }

  lemma SortedRest(cmp: Compare, l: seq<Element>)
    requires Sorted(cmp, l) && l != []
    ensures Sorted(cmp, l[1..])
  {
  }

  /** An element taken from the second run is equal to nothing left in the first. */
  lemma LaterClassIsApart(cmp: Compare, p: seq<Element>, e: Element, d: Data)
    requires TotalPreorder(cmp) && Sorted(cmp, p) && p != [] && cmp(p[0].data, e.data) > 0
    ensures Class(cmp, [e], d) == [] || Class(cmp, p, d) == []
  {
    if Equivalent(cmp, e.data, d) {
      forall i | 0 <= i < |p| ensures !Equivalent(cmp, p[i].data, d) {
        assert i == 0 || cmp(p[0].data, p[i].data) <= 0;
      }
      ClassEmpty(cmp, p, d);
    }
  }

  ghost predicate Bound(cmp: Compare, x: Element, l: seq<Element>) {
    forall i :: 0 <= i < |l| ==> cmp(x.data, l[i].data) <= 0
  }

  lemma {:induction false} MergeKeepsBound(cmp: Compare, x: Element, p: seq<Element>, q: seq<Element>)
    requires Bound(cmp, x, p) && Bound(cmp, x, q)
    ensures Bound(cmp, x, Merge(cmp, p, q))
  {
    if p != [] && q != [] {
      if cmp(p[0].data, q[0].data) <= 0 {
        MergeKeepsBound(cmp, x, p[1..], q);
      } else {
        MergeKeepsBound(cmp, x, p, q[1..]);
      }
    }
  }

  lemma SortedTail(cmp: Compare, l: seq<Element>)
    requires Sorted(cmp, l) && l != []
    ensures Sorted(cmp, l[1..]) && Bound(cmp, l[0], l[1..])
  {
  }

  lemma BoundBelow(cmp: Compare, x: Element, y: Element, l: seq<Element>)
    requires TotalPreorder(cmp) && cmp(x.data, y.data) <= 0 && Bound(cmp, y, l)
    ensures Bound(cmp, x, l)
  {
  }

  lemma ConsSorted(cmp: Compare, x: Element, l: seq<Element>)
    requires Sorted(cmp, l) && Bound(cmp, x, l)
    ensures Sorted(cmp, [x] + l)
  {
  }

  lemma {:induction false} MergeIsSorted(cmp: Compare, p: seq<Element>, q: seq<Element>)
    requires TotalPreorder(cmp) && Sorted(cmp, p) && Sorted(cmp, q)
    ensures Sorted(cmp, Merge(cmp, p, q))
  {
    hide Sorted, Bound;
    if p != [] && q != [] {
      SortedTail(cmp, p);
      SortedTail(cmp, q);
      if cmp(p[0].data, q[0].data) <= 0 {
        MergeIsSorted(cmp, p[1..], q);
        BoundBelow(cmp, p[0], q[0], q[1..]);
        BoundOfCons(cmp, p[0], q);
        MergeKeepsBound(cmp, p[0], p[1..], q);
        ConsSorted(cmp, p[0], Merge(cmp, p[1..], q));
      } else {
        MergeIsSorted(cmp, p, q[1..]);
        BoundBelow(cmp, q[0], p[0], p[1..]);
        BoundOfCons(cmp, q[0], p);
        MergeKeepsBound(cmp, q[0], p, q[1..]);
        ConsSorted(cmp, q[0], Merge(cmp, p, q[1..]));
      }
    }
  }

  lemma BoundOfCons(cmp: Compare, x: Element, l: seq<Element>)
    requires l != [] && cmp(x.data, l[0].data) <= 0 && Bound(cmp, x, l[1..])
    ensures Bound(cmp, x, l)
  {
    forall i | 0 <= i < |l| ensures cmp(x.data, l[i].data) <= 0 {
      assert i > 0 ==> l[i] == l[1..][i - 1];
    }
  }

  // ----- the passes

  lemma {:induction false} PassIsPermutation(cmp: Compare, l: seq<Element>, size: nat)
    requires size > 0
    ensures multiset(MergePass(cmp, l, size)) == multiset(l)
    decreases |l|
  {
    hide Merge;
    if l != [] {
      var mid, end := Min(size, |l|), Min(2 * size, |l|);
      PassIsPermutation(cmp, l[end..], size);
      OneMergeIsPermutation(cmp, l[..mid], l[mid..end], l[end..], MergePass(cmp, l[end..], size));
      ThreeParts(l, mid, end);
    }
  }

  lemma OneMergeIsPermutation(cmp: Compare, p: seq<Element>, q: seq<Element>, rest: seq<Element>, pass: seq<Element>)
    requires multiset(pass) == multiset(rest)
    ensures multiset(Merge(cmp, p, q) + pass) == multiset(p + q + rest)
  {
    MergeIsPermutation(cmp, p, q);
  }

  lemma {:induction false} PassIsStable(cmp: Compare, l: seq<Element>, size: nat, d: Data)
    requires size > 0 && TotalPreorder(cmp) && SortedBlocks(cmp, l, size)
    ensures Class(cmp, MergePass(cmp, l, size), d) == Class(cmp, l, d)
    decreases |l|
  {
    hide Sorted, Class, Merge;
    if l == [] {
      assert MergePass(cmp, l, size) == l;
    } else {
      var mid, end := Min(size, |l|), Min(2 * size, |l|);
      SecondBlock(cmp, l, size);
      PassIsStable(cmp, l[end..], size, d);
      OneMergeIsStable(cmp, l[..mid], l[mid..end], l[end..], MergePass(cmp, l[end..], size), d);
      ThreeParts(l, mid, end);
    }
  }

  lemma ThreeParts(l: seq<Element>, mid: nat, end: nat)
    requires mid <= end <= |l|
    ensures l == l[..mid] + l[mid..end] + l[end..]
  {
  }

  lemma OneMergeIsStable(cmp: Compare, p: seq<Element>, q: seq<Element>, rest: seq<Element>, pass: seq<Element>,
                         d: Data)
    requires TotalPreorder(cmp) && Sorted(cmp, p) && Class(cmp, pass, d) == Class(cmp, rest, d)
    ensures Class(cmp, Merge(cmp, p, q) + pass, d) == Class(cmp, p + q + rest, d)
  {
    hide *;
    MergeIsStable(cmp, p, q, d);
    ClassOfConcat(cmp, Merge(cmp, p, q), pass, d);
    ClassOfThree(cmp, p, q, rest, d);
  }

  lemma ClassOfThree(cmp: Compare, p: seq<Element>, q: seq<Element>, r: seq<Element>, d: Data)
    ensures Class(cmp, p + q + r, d) == Class(cmp, p, d) + Class(cmp, q, d) + Class(cmp, r, d)
  {
    hide Class;
    ClassOfConcat(cmp, p + q, r, d);
    ClassOfConcat(cmp, p, q, d);
  }

  /** The run behind the first one is sorted too, and so are the blocks after it. */
  lemma SecondBlock(cmp: Compare, l: seq<Element>, size: nat)
    requires size > 0 && SortedBlocks(cmp, l, size) && l != []
    ensures Sorted(cmp, l[..Min(size, |l|)])
    ensures Sorted(cmp, l[Min(size, |l|)..Min(2 * size, |l|)])
    ensures SortedBlocks(cmp, l[Min(2 * size, |l|)..], size)
  {
    hide Sorted;
    var mid := Min(size, |l|);
    var rest := l[mid..];
    SecondPart(l, size);
    if rest == [] {
      EmptyIsSorted(cmp);
    }
  }

  lemma SecondPart(l: seq<Element>, size: nat)
    ensures var mid, end := Min(size, |l|), Min(2 * size, |l|);
            var rest := l[mid..];
            && rest[..Min(size, |rest|)] == l[mid..end] && rest[Min(size, |rest|)..] == l[end..]
            && (rest == [] ==> l[mid..end] == [] && l[end..] == [])
  {
  }

  lemma EmptyIsSorted(cmp: Compare)
    ensures Sorted(cmp, [])
  {
  }

  /** After a pass over sorted runs of `size`, all runs of twice that size are sorted. */
  lemma {:induction false} PassDoublesBlocks(cmp: Compare, l: seq<Element>, size: nat)
    requires size > 0 && TotalPreorder(cmp) && SortedBlocks(cmp, l, size)
    ensures SortedBlocks(cmp, MergePass(cmp, l, size), 2 * size)
    decreases |l|
  {
    hide Sorted, Merge;
    if l != [] {
      var mid, end := Min(size, |l|), Min(2 * size, |l|);
      SecondBlock(cmp, l, size);
      MergeIsSorted(cmp, l[..mid], l[mid..end]);
      PassDoublesBlocks(cmp, l[end..], size);
      var m, rest := Merge(cmp, l[..mid], l[mid..end]), MergePass(cmp, l[end..], size);
      assert MergePass(cmp, l, size) == m + rest;
      assert (m + rest)[..end] == m && (m + rest)[end..] == rest;
    }
  }

  lemma {:induction false} SingletonBlocks(cmp: Compare, l: seq<Element>)
    ensures SortedBlocks(cmp, l, 1)
    decreases |l|
  {
    if l != [] {
      SingletonBlocks(cmp, l[1..]);
    }
  }

  lemma {:induction false} PassesAreCorrect(cmp: Compare, l: seq<Element>, size: nat)
    requires size > 0 && TotalPreorder(cmp) && SortedBlocks(cmp, l, size)
    ensures Sorted(cmp, MergePasses(cmp, l, size))
    ensures StablePermutation(cmp, l, MergePasses(cmp, l, size))
    decreases |l| - size
  {
    hide Sorted, Class;
    var m := MergePass(cmp, l, size);
    PassDoublesBlocks(cmp, l, size);
    PassIsPermutation(cmp, l, size);
    forall d ensures Class(cmp, l, d) == Class(cmp, m, d) {
      PassIsStable(cmp, l, size, d);
    }
    if |l| <= 2 * size {
      OneBlock(cmp, m, 2 * size);
    } else {
      PassesAreCorrect(cmp, m, 2 * size);
    }
  }

  lemma OneBlock(cmp: Compare, l: seq<Element>, size: nat)
    requires size > 0 && SortedBlocks(cmp, l, size) && |l| <= size
    ensures Sorted(cmp, l)
  {
    assert l[..|l|] == l;
  }

  /** The merge sort returns the elements sorted, equal ones in their old order. */
  lemma MergeSortIsStableSort(cmp: Compare, l: seq<Element>)
    requires TotalPreorder(cmp)
    ensures Sorted(cmp, MergeSort(cmp, l)) && StablePermutation(cmp, l, MergeSort(cmp, l))
  {
    SingletonBlocks(cmp, l);
    PassesAreCorrect(cmp, l, 1);
  }

  // ----- the number of passes

  function PassCount(n: nat, size: nat): nat
    requires size > 0
    decreases n - size
  {
    if n <= 2 * size then 1 else 1 + PassCount(n, 2 * size)
  }

  function CeilLog2(n: nat): nat {
    if n <= 1 then 0 else 1 + CeilLog2((n + 1) / 2)
  }

  lemma {:induction false} LogBounds(n: nat)
    requires n >= 2
    ensures CeilLog2(n) >= 1 && Pow2(CeilLog2(n) - 1) < n <= Pow2(CeilLog2(n))
  {
    if n > 2 {
      LogBounds((n + 1) / 2);
    } else {
      assert CeilLog2(1) == 0;
    }
  }

  /** The sort of `n` elements makes max(1, ceil(log2 n)) passes. */
  lemma SortPasses(n: nat)
    requires n > 0
    ensures PassCount(n, 1) == if CeilLog2(n) > 1 then CeilLog2(n) else 1
  {
    if n >= 2 {
      LogBounds(n);
      PassCountIsLog(n, CeilLog2(n), 0);
    }
  }

  lemma {:induction false} PassCountIsLog(n: nat, k: nat, j: nat)
    requires j < k && Pow2(k - 1) < n <= Pow2(k)
    ensures PassCount(n, Pow2(j)) == k - j
    decreases k - j
  {
    Pow2Monotone(j + 1, k);
    if j + 1 < k {
      Pow2Monotone(j + 1, k - 1);
      PassCountIsLog(n, k, j + 1);
    }
  }

  lemma {:induction false} Pow2Monotone(j: nat, k: nat)
    requires j <= k
    ensures Pow2(j) <= Pow2(k)
  {
    if j < k {
      Pow2Monotone(j, k - 1);
    }
  }

  // ----- ordered insertion

  /** Where HASH_AKBI_INNER_LOOP stops: in front of the first element that must come after `e`. */
  function InsertPosition(cmp: Compare, l: seq<Element>, e: Element): (i: nat)
    ensures i <= |l|
    ensures forall j :: 0 <= j < i ==> cmp(l[j].data, e.data) <= 0
    ensures i < |l| ==> cmp(l[i].data, e.data) > 0
  {
    if l == [] || cmp(l[0].data, e.data) > 0 then 0 else 1 + InsertPosition(cmp, l[1..], e)
  }

  function InsertInOrder(cmp: Compare, l: seq<Element>, e: Element): seq<Element> {
    var i := InsertPosition(cmp, l, e);
    l[..i] + [e] + l[i..]
  }

  /** Inserting into a sorted list keeps it sorted and puts the element behind all equal ones. */
  lemma InsertKeepsSorted(cmp: Compare, l: seq<Element>, e: Element)
    requires TotalPreorder(cmp) && Sorted(cmp, l)
    ensures Sorted(cmp, InsertInOrder(cmp, l, e))
    ensures forall d :: Class(cmp, InsertInOrder(cmp, l, e), d) == Class(cmp, l + [e], d)
    ensures multiset(InsertInOrder(cmp, l, e)) == multiset(l + [e])
  {
    hide Sorted, Class, TotalPreorder;
    var i := InsertPosition(cmp, l, e);
    assert l == l[..i] + l[i..];
    InsertAtKeepsSorted(cmp, l, i, e);
    forall d ensures Class(cmp, InsertInOrder(cmp, l, e), d) == Class(cmp, l + [e], d) {
      InsertAtIsStable(cmp, l, i, e, d);
    }
  }

  lemma InsertAtKeepsSorted(cmp: Compare, l: seq<Element>, i: nat, e: Element)
    requires TotalPreorder(cmp) && Sorted(cmp, l) && i <= |l|
    requires forall j :: 0 <= j < i ==> cmp(l[j].data, e.data) <= 0
    requires i < |l| ==> cmp(l[i].data, e.data) > 0
    ensures Sorted(cmp, l[..i] + [e] + l[i..])
  {
    forall j | i <= j < |l| ensures cmp(e.data, l[j].data) <= 0 {
      assert cmp(l[i].data, l[j].data) <= 0 || i == j;
    }
  }

  lemma InsertAtIsStable(cmp: Compare, l: seq<Element>, i: nat, e: Element, d: Data)
    requires TotalPreorder(cmp) && Sorted(cmp, l) && i <= |l|
    requires i < |l| ==> cmp(l[i].data, e.data) > 0
    ensures Class(cmp, l[..i] + [e] + l[i..], d) == Class(cmp, l + [e], d)
  {
    hide *;
    var front, back := l[..i], l[i..];
    InsertIsSplit(cmp, front, back, e, d);
    if Equivalent(cmp, e.data, d) {
      NoEqualBehind(cmp, l, i, e, d);
      assert Class(cmp, back, d) == [];
    }
    assert l == front + back;
  }

  lemma InsertIsSplit(cmp: Compare, front: seq<Element>, back: seq<Element>, e: Element, d: Data)
    ensures var c, f, b := Class(cmp, [e], d), Class(cmp, front, d), Class(cmp, back, d);
            && Class(cmp, front + [e] + back, d) == f + c + b
            && Class(cmp, front + back + [e], d) == f + b + c
            && (!Equivalent(cmp, e.data, d) ==> c == [])
  {
    ClassOfConcat(cmp, front + [e], back, d);
    ClassOfConcat(cmp, front, [e], d);
    ClassOfConcat(cmp, front + back, [e], d);
    ClassOfConcat(cmp, front, back, d);
  }

  lemma NoEqualBehind(cmp: Compare, l: seq<Element>, i: nat, e: Element, d: Data)
    requires TotalPreorder(cmp) && Sorted(cmp, l) && i <= |l| && Equivalent(cmp, e.data, d)
    requires i < |l| ==> cmp(l[i].data, e.data) > 0
    ensures Class(cmp, l[i..], d) == []
  {
    forall j | i <= j < |l| ensures !Equivalent(cmp, l[j].data, d) {
      assert i == j || cmp(l[i].data, l[j].data) <= 0;
    }
    ClassEmpty(cmp, l[i..], d);
  }

  /** A table filled by ordered insertion only. */
  function InsertAll(cmp: Compare, l: seq<Element>): seq<Element> {
    if l == [] then [] else InsertInOrder(cmp, InsertAll(cmp, l[..|l| - 1]), l[|l| - 1])
  }

  lemma {:induction false} InsertAllIsStableSort(cmp: Compare, l: seq<Element>)
    requires TotalPreorder(cmp)
    ensures Sorted(cmp, InsertAll(cmp, l))
    ensures forall d :: Class(cmp, InsertAll(cmp, l), d) == Class(cmp, l, d)
  {
    if l != [] {
      var init, e := l[..|l| - 1], l[|l| - 1];
      InsertAllIsStableSort(cmp, init);
      InsertKeepsSorted(cmp, InsertAll(cmp, init), e);
      assert l == init + [e];
      forall d ensures Class(cmp, InsertAll(cmp, l), d) == Class(cmp, l, d) {
        ClassOfConcat(cmp, InsertAll(cmp, init), [e], d);
        ClassOfConcat(cmp, init, [e], d);
      }
    }
  }

  // ----- there is only one stable sort

  lemma {:induction false} ClassHead(cmp: Compare, l: seq<Element>, d: Data)
    requires Class(cmp, l, d) != []
    ensures exists i :: 0 <= i < |l| && l[i] == Class(cmp, l, d)[0]
    ensures Equivalent(cmp, Class(cmp, l, d)[0].data, d)
  {
    if !Equivalent(cmp, l[0].data, d) {
      ClassHead(cmp, l[1..], d);
      var i :| 0 <= i < |l[1..]| && l[1..][i] == Class(cmp, l[1..], d)[0];
      assert l[i + 1] == Class(cmp, l, d)[0];
    }
  }

  lemma SameHead(cmp: Compare, a: seq<Element>, b: seq<Element>)
    requires TotalPreorder(cmp) && Sorted(cmp, a) && Sorted(cmp, b) && a != []
    requires forall d :: Class(cmp, a, d) == Class(cmp, b, d)
    ensures b != [] && a[0] == b[0]
  {
    var x := a[0];
    assert cmp(x.data, x.data) <= 0;
    assert Class(cmp, a, x.data)[0] == x;
    assert Class(cmp, b, x.data) != [];
    assert b != [];
    ClassHead(cmp, b, x.data);
    var y := b[0];
    assert cmp(y.data, y.data) <= 0;
    assert Class(cmp, b, y.data)[0] == y;
    ClassHead(cmp, a, y.data);
    assert cmp(y.data, x.data) <= 0 && cmp(x.data, y.data) <= 0;
    ClassOfEquivalent(cmp, a, x.data, y.data);
  }

  lemma {:induction false} StableSortIsUnique(cmp: Compare, a: seq<Element>, b: seq<Element>)
    requires TotalPreorder(cmp) && Sorted(cmp, a) && Sorted(cmp, b)
    requires forall d :: Class(cmp, a, d) == Class(cmp, b, d)
    ensures a == b
    decreases |a| + |b|
  {
    if a != [] {
      SameHead(cmp, a, b);
      forall d ensures Class(cmp, a[1..], d) == Class(cmp, b[1..], d) {
        SameTail(cmp, a, b, d);
      }
      StableSortIsUnique(cmp, a[1..], b[1..]);
      assert a == [a[0]] + a[1..] && b == [b[0]] + b[1..];
    } else if b != [] {
      SameHead(cmp, b, a);
    }
  }

  lemma SameTail(cmp: Compare, a: seq<Element>, b: seq<Element>, d: Data)
    requires a != [] && b != [] && a[0] == b[0] && Class(cmp, a, d) == Class(cmp, b, d)
    ensures Class(cmp, a[1..], d) == Class(cmp, b[1..], d)
  {
    var k := if Equivalent(cmp, a[0].data, d) then 1 else 0;
    assert Class(cmp, a[1..], d) == Class(cmp, a, d)[k..];
    assert Class(cmp, b[1..], d) == Class(cmp, b, d)[k..];
  }

  /** Sorting a table afterwards gives the order in which ordered insertion would have kept it. */
  lemma SortEqualsOrderedInsertion(cmp: Compare, l: seq<Element>)
    requires TotalPreorder(cmp)
    ensures MergeSort(cmp, l) == InsertAll(cmp, l)
  {
    MergeSortIsStableSort(cmp, l);
    InsertAllIsStableSort(cmp, l);
    StableSortIsUnique(cmp, MergeSort(cmp, l), InsertAll(cmp, l));
  }
}
