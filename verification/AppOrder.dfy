/** The doubly linked list in application order: appending, inserting, removing and HASH_SRT. */
module AppOrder {
  import opened Bits
  import opened Elements
  import opened Chains
  import opened StableSort

  function First(l: seq<Element>): Element? {
    if l == [] then null else l[0]
  }

  function Last(l: seq<Element>): Element? {
    if l == [] then null else l[|l| - 1]
  }

  ghost predicate NextFollows(l: seq<Element>)
    reads l`next
  {
    forall i {:trigger l[i].next} :: 0 <= i < |l| ==> l[i].next == After(l, i)
  }

  ghost predicate PrevFollows(l: seq<Element>)
    reads l`prev
  {
    forall i {:trigger l[i].prev} :: 0 <= i < |l| ==> l[i].prev == Before(l, i)
  }

  /** `l` is the list that `head` and `tail` delimit; HASH_FSCK checks the `prev` links. */
  ghost predicate IsList(l: seq<Element>, head: Element?, tail: Element?)
    reads l`prev, l`next
  {
    head == First(l) && tail == Last(l) && NextFollows(l) && PrevFollows(l) && Distinct(l)
  }

  /** HASH_APPEND_LIST. */
  method Append(add: Element, tail: Element, ghost l: seq<Element>)
    requires l != [] && IsList(l, l[0], tail) && add !in l
    modifies add`next, add`prev, tail`next
    ensures IsList(l + [add], l[0], add)
  {
    assert forall i {:trigger l[i].next} :: 0 <= i < |l| ==> l[i].next == After(l, i) && l[i].prev == Before(l, i);
    add.next := null;
    add.prev := tail;
    tail.next := add;
    ghost var l' := l + [add];
    forall i | 0 <= i < |l'|
      ensures l'[i].next == After(l', i) && l'[i].prev == Before(l', i)
    {
      if i < |l| {
        assert old(l[i].next) == After(l, i) && old(l[i].prev) == Before(l, i);
      }
    }
  }

  /** The pointer updates of ordered insertion in front of `iter`; the result is the new head. */
  method LinkBetween(head: Element, add: Element, iter: Element, ghost k: nat, ghost l: seq<Element>)
    returns (head': Element)
    requires l != [] && IsList(l, head, Last(l)) && add !in l && k < |l| && l[k] == iter
    modifies add`next, add`prev, l`next, l`prev
    ensures add.next == l[k] && add.prev == Before(l, k) && head' == if k == 0 then add else head
    ensures forall j {:trigger l[j].next} :: 0 <= j < |l| ==> l[j].next == if j + 1 == k then add else After(l, j)
    ensures forall j {:trigger l[j].prev} :: 0 <= j < |l| ==> l[j].prev == if j == k then add else Before(l, j)
  {
    assert l[k].prev == Before(l, k);
    head' := head;
    add.next := iter;
    add.prev := iter.prev;
    if add.prev != null {
      add.prev.next := add;
    } else {
      head' := add;
    }
    iter.prev := add;
    forall j | 0 <= j < |l| ensures l[j].next == if j + 1 == k then add else After(l, j) {
      assert old(l[j].next) == After(l, j);
    }
    forall j | 0 <= j < |l| ensures l[j].prev == if j == k then add else Before(l, j) {
      assert old(l[j].prev) == Before(l, j);
    }
  }

  /** The list surgery of ordered insertion. */
  method InsertBefore(head: Element, add: Element, iter: Element, ghost k: nat, ghost l: seq<Element>)
    returns (head': Element)
    requires l != [] && IsList(l, head, Last(l)) && add !in l && k < |l| && l[k] == iter
    modifies add`next, add`prev, l`next, l`prev
    ensures IsList(l[..k] + [add] + l[k..], head', Last(l))
  {
    hide NextFollows, PrevFollows;
    head' := LinkBetween(head, add, iter, k, l);
    LinkedWithInsertion(l, k, add);
    DistinctWithInsertion(l, k, add);
  }

  lemma LinkedWithInsertion(l: seq<Element>, k: nat, add: Element)
    requires k < |l| && add.next == l[k] && add.prev == Before(l, k)
    requires forall j {:trigger l[j].next} :: 0 <= j < |l| ==> l[j].next == if j + 1 == k then add else After(l, j)
    requires forall j {:trigger l[j].prev} :: 0 <= j < |l| ==> l[j].prev == if j == k then add else Before(l, j)
    ensures NextFollows(l[..k] + [add] + l[k..]) && PrevFollows(l[..k] + [add] + l[k..])
  {
    var l' := l[..k] + [add] + l[k..];
    forall i | 0 <= i < |l'|
      ensures l'[i].next == After(l', i) && l'[i].prev == Before(l', i)
    {
      if i < k {
        assert l'[i] == l[i];
      } else if i > k {
        assert l'[i] == l[i - 1];
      }
    }
  }

  lemma DistinctWithInsertion(l: seq<Element>, k: nat, add: Element)
    requires Distinct(l) && add !in l && k <= |l|
    ensures Distinct(l[..k] + [add] + l[k..])
  {
  }

  /** The list surgery of HASH_DELETE_HH; the results are the new head and tail. */
  method Remove(head: Element, tail: Element, del: Element, ghost k: nat, ghost l: seq<Element>)
    returns (head': Element?, tail': Element?)
    requires IsList(l, head, tail) && k < |l| && l[k] == del
    modifies l`next, l`prev
    ensures IsList(Without(l, k), head', tail')
    ensures del.next == old(del.next) && del.prev == old(del.prev)
  {
    assert l[k].prev == Before(l, k) && l[k].next == After(l, k);
    head', tail' := head, tail;
    if del == tail {
      tail' := del.prev;
    }
    if del.prev != null {
      del.prev.next := del.next;
    } else {
      head' := del.next;
    }
    if del.next != null {
      del.next.prev := del.prev;
    }
    assert del.next == After(l, k) && del.prev == Before(l, k);
    forall j | 0 <= j < |l|
      ensures l[j].next == (if j + 1 == k then After(l, k) else After(l, j))
      ensures l[j].prev == (if j == k + 1 then Before(l, k) else Before(l, j))
    {
      assert old(l[j].next) == After(l, j) && old(l[j].prev) == Before(l, j);
    }
    LinkedWithout(l, k);
    EndsWithout(l, k);
  }

  lemma EndsWithout(l: seq<Element>, k: nat)
    requires Distinct(l) && k < |l|
    ensures First(Without(l, k)) == if k == 0 then After(l, k) else l[0]
    ensures Last(Without(l, k)) == if k + 1 == |l| then Before(l, k) else l[|l| - 1]
    ensures Distinct(Without(l, k))
  {
  }

  lemma LinkedWithout(l: seq<Element>, k: nat)
    requires k < |l|
    requires forall j :: 0 <= j < |l| ==> l[j].next == if j + 1 == k then After(l, k) else After(l, j)
    requires forall j :: 0 <= j < |l| ==> l[j].prev == if j == k + 1 then Before(l, k) else Before(l, j)
    ensures NextFollows(Without(l, k)) && PrevFollows(Without(l, k))
  {
    var l' := Without(l, k);
    forall i | 0 <= i < |l'|
      ensures l'[i].next == After(l', i) && l'[i].prev == Before(l', i)
    {
      if i < k {
        assert l'[i] == l[i];
      } else {
        assert l'[i] == l[i + 1];
      }
    }
  }

  // ----- HASH_SRT

  ghost predicate Disjoint(a: seq<Element>, b: seq<Element>) {
    forall i, j :: 0 <= i < |a| && 0 <= j < |b| ==> a[i] != b[j]
  }

  /** A list under construction: everything but the `next` link of its last element is in place. */
  ghost predicate IsOutput(out: seq<Element>, list: Element?, tail: Element?)
    reads out`prev, out`next
  {
    && list == First(out) && tail == Last(out) && Distinct(out) && PrevFollows(out)
    && forall i {:trigger out[i].next} :: 0 <= i < |out| ==> i + 1 < |out| ==> out[i].next == After(out, i)
  }

  /** A run still to be merged: `next` leads to its last element. */
  ghost predicate IsRun(a: seq<Element>, p: Element?)
    reads a`next
  {
    && (a != [] ==> p == a[0])
    && forall i {:trigger a[i].next} :: 0 <= i < |a| ==> i + 1 < |a| ==> a[i].next == After(a, i)
  }

  /** The rest of the list a pass has not reached yet. */
  ghost predicate IsRest(r: seq<Element>, q: Element?)
    reads r`next
  {
    q == First(r) && NextFollows(r)
  }

  /** One element is appended to the output of a merge (`_hs_tail->next = e; e->prev = _hs_tail`). */
  method Emit(e: Element, list: Element?, tail: Element?, ghost out: seq<Element>) returns (list': Element)
    requires IsOutput(out, list, tail) && e !in out
    modifies e`prev, out`next
    ensures IsOutput(out + [e], list', e)
    ensures forall x :: x in out && x != tail ==> x.next == old(x.next)
  {
    if tail != null {
      tail.next := e;
      list' := list;
    } else {
      list' := e;
    }
    e.prev := tail;
    ghost var out' := out + [e];
    forall i | 0 <= i < |out'|
      ensures out'[i].prev == Before(out', i)
      ensures i + 1 < |out'| ==> out'[i].next == After(out', i)
    {
      if i < |out| {
        assert old(out[i].prev) == Before(out, i);
        assert i + 1 < |out| ==> old(out[i].next) == After(out, i);
      }
    }
  }

  /** The loop that finds the second run: at most `size` steps along the list. */
  method SkipRun(p: Element, size: nat, ghost r: seq<Element>) returns (q: Element?, psize: nat)
    requires size > 0 && IsRest(r, p)
    ensures psize == Min(size, |r|) && IsRest(r[psize..], q)
  {
    q, psize := p, 0;
    for i := 0 to size
      invariant i == psize < |r| && q == r[i]
    {
      psize := psize + 1;
      assert r[i].next == After(r, i);
      q := q.next;
      if q == null {
        break;
      }
    }
    ghost var rest := r[psize..];
    forall i | 0 <= i < |rest| ensures rest[i].next == After(rest, i) {
      assert r[psize + i].next == After(r, psize + i);
    }
  }

  /** The elements of the second run that are not merged yet. */
  function RunPrefix(r: seq<Element>, qsize: nat): seq<Element> {
    r[..Min(qsize, |r|)]
  }

  function AfterRun(r: seq<Element>, qsize: nat): seq<Element> {
    r[Min(qsize, |r|)..]
  }

  ghost predicate MergeState(out: seq<Element>, a: seq<Element>, r: seq<Element>,
                             list: Element?, tail: Element?, p: Element?, q: Element?)
    reads out`prev, out`next, a`next, r`next
  {
    && IsOutput(out, list, tail) && IsRun(a, p) && IsRest(r, q)
    && Distinct(a) && Distinct(r) && Disjoint(out, a) && Disjoint(out, r) && Disjoint(a, r)
  }

  /** Takes the head of the first run: `e = p; p = p->next`, then appends it to the output. */
  method TakeFirst(list: Element?, tail: Element?, p: Element, q: Element?, ghost out: seq<Element>,
                   ghost a: seq<Element>, ghost r: seq<Element>)
    returns (list': Element?, tail': Element, p': Element?)
    requires MergeState(out, a, r, list, tail, p, q) && a != []
    modifies a`prev, out`next
    ensures MergeState(out + [a[0]], a[1..], r, list', tail', p', q)
  {
    var e := p;
    assert 1 < |a| ==> a[0].next == After(a, 0);
    p' := p.next;
    list' := Emit(e, list, tail, out);
    tail' := e;
    ghost var a' := a[1..];
    forall i | 0 <= i < |a'| ensures i + 1 < |a'| ==> a'[i].next == After(a', i) {
      assert a'[i] == a[i + 1];
      assert i + 1 < |a'| ==> old(a[i + 1].next) == After(a, i + 1);
    }
    forall i | 0 <= i < |r| ensures r[i].next == After(r, i) {
      assert old(r[i].next) == After(r, i);
    }
  }

  /** Takes the head of the second run: `e = q; q = q->next`, then appends it to the output. */
  method TakeSecond(list: Element?, tail: Element?, p: Element?, q: Element, ghost out: seq<Element>,
                    ghost a: seq<Element>, ghost r: seq<Element>)
    returns (list': Element?, tail': Element, q': Element?)
    requires MergeState(out, a, r, list, tail, p, q) && r != []
    modifies r`prev, out`next
    ensures MergeState(out + [r[0]], a, r[1..], list', tail', p, q')
  {
    var e := q;
    assert r[0].next == After(r, 0);
    q' := q.next;
    list' := Emit(e, list, tail, out);
    tail' := e;
    ghost var r' := r[1..];
    forall i | 0 <= i < |r'| ensures r'[i].next == After(r', i) {
      assert r'[i] == r[i + 1];
      assert old(r[i + 1].next) == After(r, i + 1);
    }
    forall i | 0 <= i < |a| ensures i + 1 < |a| ==> a[i].next == After(a, i) {
      assert i + 1 < |a| ==> old(a[i].next) == After(a, i);
    }
  }

  ghost predicate Within(a: seq<Element>, s: set<Element>) {
    forall i :: 0 <= i < |a| ==> a[i] in s
  }

  /** Merging goes on with the tails once the smaller head is taken. */
  lemma MergeTakesFirst(cmp: Compare, a: seq<Element>, b: seq<Element>, out: seq<Element>)
    requires a != [] && (b == [] || cmp(a[0].data, b[0].data) <= 0)
    ensures out + Merge(cmp, a, b) == (out + [a[0]]) + Merge(cmp, a[1..], b)
  {
    if b == [] {
      assert Merge(cmp, a, b) == a == [a[0]] + a[1..];
      assert Merge(cmp, a[1..], b) == a[1..];
    }
  }

  lemma MergeTakesSecond(cmp: Compare, a: seq<Element>, b: seq<Element>, out: seq<Element>)
    requires b != [] && (a == [] || cmp(a[0].data, b[0].data) > 0)
    ensures out + Merge(cmp, a, b) == (out + [b[0]]) + Merge(cmp, a, b[1..])
  {
    if a == [] {
      assert Merge(cmp, a, b) == b == [b[0]] + b[1..];
      assert Merge(cmp, a, b[1..]) == b[1..];
    }
  }

  lemma AdvanceRest(r: seq<Element>, qsize: nat)
    requires r != [] && qsize > 0
    ensures RunPrefix(r, qsize) != [] && RunPrefix(r, qsize)[0] == r[0]
    ensures RunPrefix(r[1..], qsize - 1) == RunPrefix(r, qsize)[1..]
    ensures AfterRun(r[1..], qsize - 1) == AfterRun(r, qsize)
  {
  }

  /** The loop that merges two neighbouring runs and appends the result to the output. */
  method MergeRuns(cmp: Compare, list: Element?, tail: Element?, p: Element?, q: Element?, psize: nat, size: nat,
                   ghost out: seq<Element>, ghost a: seq<Element>, ghost r: seq<Element>, ghost all: set<Element>)
    returns (list': Element?, tail': Element?, q': Element?, ghost out': seq<Element>)
    requires MergeState(out, a, r, list, tail, p, q) && psize == |a|
    requires Within(out, all) && Within(a, all) && Within(r, all)
    modifies all`prev, all`next
    ensures out' == out + Merge(cmp, a, RunPrefix(r, size))
    ensures MergeState(out', [], AfterRun(r, size), list', tail', null, q')
    ensures Within(out', all) && Within(AfterRun(r, size), all)
  {
    hide NextFollows, PrevFollows, IsOutput, Distinct, Disjoint, RunPrefix, AfterRun, Merge;
    list', tail', q', out' := list, tail, q, out;
    var p', psize', qsize := p, psize, size;
    ghost var a', r' := a, r;
    while psize' != 0 || (qsize != 0 && q' != null)
      invariant MergeState(out', a', r', list', tail', p', q') && psize' == |a'|
      invariant Within(out', all) && Within(a', all) && Within(r', all)
      invariant out' + Merge(cmp, a', RunPrefix(r', qsize)) == out + Merge(cmp, a, RunPrefix(r, size))
      invariant AfterRun(r', qsize) == AfterRun(r, size)
      decreases |a'| + |r'|
    {
      if psize' == 0 {
        AdvanceRest(r', qsize);
        MergeTakesSecond(cmp, a', RunPrefix(r', qsize), out');
        list', tail', q' := TakeSecond(list', tail', p', q', out', a', r');
        out', r', qsize := out' + [r'[0]], r'[1..], qsize - 1;
      } else if qsize == 0 || q' == null {
        NothingInRun(r', qsize);
        MergeTakesFirst(cmp, a', RunPrefix(r', qsize), out');
        list', tail', p' := TakeFirst(list', tail', p', q', out', a', r');
        out', a', psize' := out' + [a'[0]], a'[1..], psize' - 1;
      } else if cmp(p'.data, q'.data) <= 0 {
        AdvanceRest(r', qsize);
        MergeTakesFirst(cmp, a', RunPrefix(r', qsize), out');
        list', tail', p' := TakeFirst(list', tail', p', q', out', a', r');
        out', a', psize' := out' + [a'[0]], a'[1..], psize' - 1;
      } else {
        AdvanceRest(r', qsize);
        MergeTakesSecond(cmp, a', RunPrefix(r', qsize), out');
        list', tail', q' := TakeSecond(list', tail', p', q', out', a', r');
        out', r', qsize := out' + [r'[0]], r'[1..], qsize - 1;
      }
    }
    NothingInRun(r', qsize);
    NothingToMerge(cmp, out');
  }

  lemma NothingInRun(r: seq<Element>, qsize: nat)
    requires qsize == 0 || r == []
    ensures RunPrefix(r, qsize) == [] && AfterRun(r, qsize) == r
  {
  }

  lemma NothingToMerge(cmp: Compare, out: seq<Element>)
    ensures out + Merge(cmp, [], []) == out
  {
  }

  lemma SplitRuns(r: seq<Element>, p: Element, q: Element?, size: nat)
    requires IsRest(r, p) && Distinct(r) && IsRest(r[Min(size, |r|)..], q)
    ensures var a, b := r[..Min(size, |r|)], r[Min(size, |r|)..];
            IsRun(a, p) && Distinct(a) && Distinct(b) && Disjoint(a, b)
  {
    var a := r[..Min(size, |r|)];
    forall i | 0 <= i < |a| ensures i + 1 < |a| ==> a[i].next == After(a, i) {
      assert r[i].next == After(r, i);
    }
  }

  lemma UnfoldPass(cmp: Compare, r: seq<Element>, size: nat, out: seq<Element>)
    requires r != [] && size > 0
    ensures var a, b := r[..Min(size, |r|)], r[Min(size, |r|)..];
            out + MergePass(cmp, r, size) ==
            (out + Merge(cmp, a, RunPrefix(b, size))) + MergePass(cmp, AfterRun(b, size), size)
  {
    hide Merge;
    var mid, end := Min(size, |r|), Min(2 * size, |r|);
    TwoRuns(r, size);
    var m, rest := Merge(cmp, r[..mid], r[mid..end]), MergePass(cmp, r[end..], size);
    assert MergePass(cmp, r, size) == m + rest;
    assert out + (m + rest) == (out + m) + rest;
  }

  lemma TwoRuns(r: seq<Element>, size: nat)
    ensures var mid, end := Min(size, |r|), Min(2 * size, |r|);
            RunPrefix(r[mid..], size) == r[mid..end] && AfterRun(r[mid..], size) == r[end..]
  {
  }

  lemma DisjointParts(out: seq<Element>, r: seq<Element>, k: nat)
    requires Disjoint(out, r) && k <= |r|
    ensures Disjoint(out, r[..k]) && Disjoint(out, r[k..])
  {
  }

  /** One iteration of the pass loop: the next two runs are found and merged. */
  method MergeNextRuns(cmp: Compare, list: Element?, tail: Element?, p: Element, size: nat,
                       ghost out: seq<Element>, ghost r: seq<Element>, ghost all: set<Element>)
    returns (list': Element?, tail': Element?, p': Element?, ghost out': seq<Element>, ghost r': seq<Element>)
    requires size > 0 && IsOutput(out, list, tail) && IsRest(r, p) && Distinct(r) && Disjoint(out, r)
    requires Within(out, all) && Within(r, all)
    modifies all`prev, all`next
    ensures IsOutput(out', list', tail') && IsRest(r', p') && Distinct(r') && Disjoint(out', r')
    ensures Within(out', all) && Within(r', all)
    ensures out' + MergePass(cmp, r', size) == out + MergePass(cmp, r, size)
    ensures |out'| == |out| + Min(2 * size, |r|) && |out'| + |r'| == |out| + |r|
  {
    hide Distinct, Disjoint, IsOutput;
    var q, psize := SkipRun(p, size, r);
    ghost var a, b := r[..psize], r[psize..];
    SplitRuns(r, p, q, size);
    DisjointParts(out, r, psize);
    UnfoldPass(cmp, r, size, out);
    list', tail', p', out' := MergeRuns(cmp, list, tail, p, q, psize, size, out, a, b, all);
    r' := AfterRun(b, size);
  }

  lemma EmptyPass(cmp: Compare, size: nat, out: seq<Element>)
    requires size > 0
    ensures out + MergePass(cmp, [], size) == out
  {
  }

  lemma NothingYet(l: seq<Element>)
    ensures IsOutput([], null, null) && Disjoint([], l)
  {
  }

  /** One pass over the whole list with runs of `size` elements. */
  method OnePass(cmp: Compare, head: Element, size: nat, ghost l: seq<Element>)
    returns (list: Element?, tail: Element?, nmerges: nat)
    requires size > 0 && IsRest(l, head) && Distinct(l)
    modifies l`prev, l`next
    ensures IsList(MergePass(cmp, l, size), list, tail)
    ensures nmerges <= 1 <==> |l| <= 2 * size
  {
    hide MergePass, NextFollows, IsOutput, Distinct, Disjoint, IsList;
    ghost var all := set e | e in l;
    NothingYet(l);
    ghost var out, r: seq<Element> := [], l;
    var p: Element? := head;
    list, tail, nmerges := null, null, 0;
    assert out + MergePass(cmp, r, size) == MergePass(cmp, l, size);
    while p != null
      invariant IsOutput(out, list, tail) && IsRest(r, p) && Distinct(r) && Disjoint(out, r)
      invariant Within(out, all) && Within(r, all)
      invariant out + MergePass(cmp, r, size) == MergePass(cmp, l, size) && |out| + |r| == |l|
      invariant nmerges == 0 ==> out == []
      invariant nmerges == 1 ==> |out| == Min(2 * size, |l|)
      invariant nmerges >= 2 ==> |l| > 2 * size
      decreases |r|
    {
      nmerges := nmerges + 1;
      list, tail, p, out, r := MergeNextRuns(cmp, list, tail, p, size, out, r, all);
    }
    EmptyPass(cmp, size, out);
    CloseList(list, tail, out);
  }

  /** The end of a pass: the last element gets no successor. */
  method CloseList(list: Element?, tail: Element?, ghost out: seq<Element>)
    requires IsOutput(out, list, tail)
    modifies out`next
    ensures IsList(out, list, tail)
  {
    if tail != null {
      tail.next := null;
    }
    forall i | 0 <= i < |out| ensures out[i].next == After(out, i) {
      assert i + 1 < |out| ==> old(out[i].next) == After(out, i);
    }
  }

  /** HASH_SRT. Only the `prev` and `next` links are written; the number of passes is a ghost result. */
  method Sort(cmp: Compare, head: Element, tail: Element?, ghost l: seq<Element>)
    returns (head': Element?, tail': Element?, ghost passes: nat)
    requires IsList(l, head, tail)
    modifies l`prev, l`next
    ensures IsList(MergeSort(cmp, l), head', tail')
    ensures passes == PassCount(|l|, 1)
  {
    hide MergePass, IsList, IsRest, Distinct;
    ghost var cur := l;
    var list: Element?, looping, insize := head, true, 1;
    tail', passes := tail, 0;
    while looping
      invariant |cur| == |l| && insize > 0 && IsList(cur, list, tail') && list != null
      invariant multiset(cur) == multiset(l) && forall i :: 0 <= i < |cur| ==> cur[i] in l
      invariant looping ==> MergePasses(cmp, cur, insize) == MergeSort(cmp, l)
      invariant looping ==> passes + PassCount(|l|, insize) == PassCount(|l|, 1)
      invariant !looping ==> cur == MergeSort(cmp, l) && passes == PassCount(|l|, 1)
      decreases looping, |l| - insize
    {
      ListIsRest(cur, list, tail');
      PassIsPermutation(cmp, cur, insize);
      var nmerges: nat;
      list, tail', nmerges := OnePass(cmp, list, insize, cur);
      cur, passes := MergePass(cmp, cur, insize), passes + 1;
      ListIsRest(cur, list, tail');
      SameElements(cur, l);
      if nmerges <= 1 {
        looping := false;
      }
      insize := insize * 2;
    }
    head' := list;
  }

  lemma ListIsRest(l: seq<Element>, head: Element?, tail: Element?)
    requires IsList(l, head, tail)
    ensures IsRest(l, head) && Distinct(l) && head == First(l)
  {
  }

  lemma SameElements(a: seq<Element>, b: seq<Element>)
    requires multiset(a) == multiset(b)
    ensures forall i :: 0 <= i < |a| ==> a[i] in b
  {
    forall i | 0 <= i < |a| ensures a[i] in b {
      assert a[i] in multiset(a);
      assert a[i] in multiset(b);
    }
  }
}
