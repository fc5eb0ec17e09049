/** The intrusive hash table of uthash.h: every element is in the application-order list and in a bucket chain. */
module HashTables {
  import opened Bits
  import opened Elements
  import opened Chains
  import opened StableSort
  import AppOrder
  import Expansion
  import opened Load

  const INITIAL_NUM_BUCKETS := 32
  const INITIAL_NUM_BUCKETS_LOG2 := 5

  /** `pending` is the one element of the list that is not in a chain yet, if there is one. */
  ghost predicate Covers(items: seq<Element>, chains: seq<seq<Element>>, pending: Element?)
    requires |chains| > 0
    reads items`hashv
  {
    && (forall i :: 0 <= i < |items| && items[i] != pending ==> items[i] in chains[Slot(items[i].hashv, |chains|)])
    && forall b, i :: 0 <= b < |chains| && 0 <= i < |chains[b]| ==> chains[b][i] in items && chains[b][i] != pending
  }

  ghost predicate DistinctKeys(items: seq<Element>)
    reads items`key
  {
    forall i, j :: 0 <= i < j < |items| ==> items[i].key != items[j].key
  }

  ghost predicate HasKey(items: seq<Element>, key: string)
    reads items`key
  {
    exists i :: 0 <= i < |items| && items[i].key == key
  }

  /** The list without `e`, which occurs at most once in it. */
  ghost function Minus(l: seq<Element>, e: Element): (r: seq<Element>)
    ensures |r| == |l| - if e in l then 1 else 0
  {
    if l == [] then [] else if l[0] == e then l[1..] else [l[0]] + Minus(l[1..], e)
  }

  lemma {:induction false} MinusIsWithout(l: seq<Element>, k: nat)
    requires Distinct(l) && k < |l|
    ensures Minus(l, l[k]) == Without(l, k)
  {
    if k > 0 {
      MinusIsWithout(l[1..], k - 1);
      ConsWithout(l, k);
    }
  }

  lemma WithoutLength(l: seq<Element>, k: nat)
    requires k < |l|
    ensures |Without(l, k)| == |l| - 1
  {
  }

  lemma ConsWithout(l: seq<Element>, k: nat)
    requires 0 < k < |l|
    ensures Without(l, k) == [l[0]] + Without(l[1..], k - 1)
  {
  }

  lemma {:induction false} MinusAbsent(l: seq<Element>, e: Element)
    requires e !in l
    ensures Minus(l, e) == l
  {
    if l != [] {
      MinusAbsent(l[1..], e);
    }
  }

  ghost function ChainsMinus(chains: seq<seq<Element>>, e: Element): seq<seq<Element>> {
    seq(|chains|, b requires 0 <= b < |chains| => Minus(chains[b], e))
  }

  lemma ChainWithoutIsMinus(chains: seq<seq<Element>>, b: nat, k: nat)
    requires Slotted(chains) && b < |chains| && k < |chains[b]|
    ensures chains[b := Without(chains[b], k)] == ChainsMinus(chains, chains[b][k])
  {
    var e := chains[b][k];
    MinusIsWithout(chains[b], k);
    forall b' | 0 <= b' < |chains| && b' != b ensures Minus(chains[b'], e) == chains[b'] {
      ChainsDisjoint(chains, b, b');
      MinusAbsent(chains[b'], e);
    }
  }

  // ----- lookups

  /** What HASH_FIND finds in the chains: the first element with the key in the bucket its hash value selects. */
  ghost function FoundIn(chains: seq<seq<Element>>, hash: string -> nat, key: string): Element?
    reads Members(chains)`key
  {
    if chains == [] then null else FirstWith(chains[Slot(hash(key), |chains|)], key)
  }

  ghost predicate Hashed(items: seq<Element>, hash: string -> nat)
    reads items`hashv, items`key
  {
    forall i :: 0 <= i < |items| ==> items[i].hashv == hash(items[i].key)
  }

  ghost predicate AtMostOne(items: seq<Element>, key: string)
    reads items`key
  {
    forall i, j :: 0 <= i < j < |items| && items[i].key == key ==> items[j].key != key
  }

  /** The last element of a chain with the key. */
  ghost function LastWith(c: seq<Element>, key: string): (e: Element?)
    reads c`key
    ensures e == null <==> forall i :: 0 <= i < |c| ==> c[i].key != key
  {
    if c == [] then null
    else if c[|c| - 1].key == key then c[|c| - 1]
    else LastWith(c[..|c| - 1], key)
  }

  /** The elements with one key change their order when they move to their new chain. */
  lemma {:induction false} RedistributedFirst(c: seq<Element>, n2: nat, j: nat, key: string)
    requires n2 > 0 && forall i :: 0 <= i < |c| && c[i].key == key ==> Slot(c[i].hashv, n2) == j
    ensures FirstWith(Expansion.Redistributed(c, n2, j), key) == LastWith(c, key)
  {
    if c != [] {
      var init, e := c[..|c| - 1], c[|c| - 1];
      assert forall i :: 0 <= i < |init| ==> init[i] == c[i];
      RedistributedFirst(init, n2, j, key);
      var r := Expansion.Redistributed(init, n2, j);
      assert Expansion.Redistributed(c, n2, j) == if Slot(e.hashv, n2) == j then [e] + r else r;
      assert ([e] + r)[1..] == r;
    }
  }

  lemma {:induction false} FirstIsLastIff(c: seq<Element>, key: string)
    requires Distinct(c)
    ensures FirstWith(c, key) == LastWith(c, key) <==> AtMostOne(c, key)
  {
    if c != [] {
      hide Distinct, FirstWith, AtMostOne;
      var init, e := c[..|c| - 1], c[|c| - 1];
      OneMore(init, e, key);
      assert c == init + [e];
      FirstIsLastIff(init, key);
      FirstOfMore(init, e, key);
    }
  }

  lemma OneMore(init: seq<Element>, e: Element, key: string)
    requires Distinct(init + [e])
    ensures Distinct(init) && e !in init
    ensures AtMostOne(init + [e], key) <==> AtMostOne(init, key) && (e.key == key ==> FirstWith(init, key) == null)
  {
    var c := init + [e];
    assert forall i :: 0 <= i < |init| ==> c[i] == init[i] && c[i] != c[|init|];
  }

  lemma {:induction false} FirstOfMore(c: seq<Element>, e: Element, key: string)
    ensures FirstWith(c + [e], key) ==
            if FirstWith(c, key) != null then FirstWith(c, key) else if e.key == key then e else null
  {
    if c != [] {
      FirstOfMore(c[1..], e, key);
      assert (c + [e])[1..] == c[1..] + [e];
    }
  }

  ghost predicate WithKeyIn(a: seq<Element>, b: seq<Element>, key: string)
    reads a`key
  {
    forall i :: 0 <= i < |a| && a[i].key == key ==> a[i] in b
  }

  /** A handle is where its hash value says, so the elements with one key are together in one bucket. */
  lemma SameBucket(items: seq<Element>, chains: seq<seq<Element>>, hash: string -> nat, key: string)
    requires Slotted(chains) && Covers(items, chains, null) && Hashed(items, hash)
    ensures var c := chains[Slot(hash(key), |chains|)]; WithKeyIn(items, c, key) && WithKeyIn(c, items, key)
  {
  }

  lemma AtMostOneInBucket(items: seq<Element>, c: seq<Element>, key: string)
    requires Distinct(items) && Distinct(c) && WithKeyIn(items, c, key) && WithKeyIn(c, items, key)
    ensures AtMostOne(items, key) <==> AtMostOne(c, key)
  {
    OnceInBoth(items, c, key);
    OnceInBoth(c, items, key);
  }

  lemma OnceInBoth(a: seq<Element>, b: seq<Element>, key: string)
    requires Distinct(a) && WithKeyIn(a, b, key)
    ensures AtMostOne(b, key) ==> AtMostOne(a, key)
  {
    if !AtMostOne(a, key) {
      var i, j :| 0 <= i < j < |a| && a[i].key == key && a[j].key == key;
      var p :| 0 <= p < |b| && b[p] == a[i];
      var q :| 0 <= q < |b| && b[q] == a[j];
      assert p < q || q < p;
    }
  }

  /** An expansion changes what is found under a key exactly when two elements have the key. */
  lemma FoundAfterExpansionIff(items: seq<Element>, chains: seq<seq<Element>>, newChains: seq<seq<Element>>,
                               hash: string -> nat, key: string)
    requires Slotted(chains) && Covers(items, chains, null) && Distinct(items) && Hashed(items, hash)
    requires Expansion.Doubled(chains, newChains)
    ensures FoundIn(newChains, hash, key) == FoundIn(chains, hash, key) <==> AtMostOne(items, key)
  {
    hide FirstWith, LastWith, AtMostOne, Distinct;
    var h, n2 := hash(key), |newChains|;
    var c, j := chains[Slot(h, |chains|)], Slot(h, n2);
    assert Distinct(c);
    Expansion.SlotOfParent(h, |chains|);
    assert newChains[j] == Expansion.Redistributed(c, n2, j);
    forall i | 0 <= i < |c| && c[i].key == key ensures Slot(c[i].hashv, n2) == j {
      assert chains[Slot(h, |chains|)][i] in items;
    }
    RedistributedFirst(c, n2, j, key);
    FirstIsLastIff(c, key);
    SameBucket(items, chains, hash, key);
    AtMostOneInBucket(items, c, key);
  }

  // ----- the counters agree with the list, as HASH_FSCK checks

  ghost function Elems(l: seq<Element>): set<Element> {
    set e | e in l
  }

  lemma {:induction false} DistinctCount(l: seq<Element>)
    requires Distinct(l)
    ensures |Elems(l)| == |l|
  {
    if l != [] {
      var init, e := l[..|l| - 1], l[|l| - 1];
      DistinctCount(init);
      assert l == init + [e];
      assert Elems(l) == Elems(init) + {e};
    }
  }

  ghost function InBucketsFrom(items: seq<Element>, n: nat, k: nat): set<Element>
    requires n > 0
    reads items`hashv
  {
    set e | e in items && Slot(e.hashv, n) >= k
  }

  lemma {:induction false} CountFrom(items: seq<Element>, bs: seq<Bucket>, chains: seq<seq<Element>>, k: nat)
    requires AllLinked(bs, chains) && Slotted(chains) && Covers(items, chains, null) && k <= |bs|
    ensures Expansion.TotalCount(bs[k..]) == |InBucketsFrom(items, |bs|, k)|
    decreases |bs| - k
  {
    hide NextLinked, PrevLinked;
    if k == |bs| {
      assert InBucketsFrom(items, |bs|, k) == {};
    } else {
      CountFrom(items, bs, chains, k + 1);
      BucketSplit(items, chains, k);
      DistinctCount(chains[k]);
      assert Linked(bs[k], chains[k]);
      assert bs[k..][1..] == bs[k + 1..];
    }
  }

  lemma BucketSplit(items: seq<Element>, chains: seq<seq<Element>>, k: nat)
    requires Slotted(chains) && Covers(items, chains, null) && k < |chains|
    ensures InBucketsFrom(items, |chains|, k) == InBucketsFrom(items, |chains|, k + 1) + Elems(chains[k])
    ensures InBucketsFrom(items, |chains|, k + 1) !! Elems(chains[k])
  {
    forall e ensures e in chains[k] <==> e in items && Slot(e.hashv, |chains|) == k {
      if e in items {
        var i :| 0 <= i < |items| && items[i] == e;
      }
    }
  }

  /** The counts of the buckets add up to the length of the list. */
  lemma CountsAddUp(items: seq<Element>, bs: seq<Bucket>, chains: seq<seq<Element>>)
    requires AllLinked(bs, chains) && Slotted(chains) && Covers(items, chains, null) && Distinct(items)
    ensures Expansion.TotalCount(bs) == |items|
  {
    CountFrom(items, bs, chains, 0);
    assert bs[0..] == bs;
    assert InBucketsFrom(items, |bs|, 0) == Elems(items);
    DistinctCount(items);
  }

  /** An expansion keeps exactly the same handles in the chains. */
  lemma ExpandedCovers(items: seq<Element>, chains: seq<seq<Element>>, newChains: seq<seq<Element>>)
    requires Slotted(chains) && Covers(items, chains, null) && Expansion.Doubled(chains, newChains)
    ensures Covers(items, newChains, null)
  {
    hide Slotted;
    forall i | 0 <= i < |items| ensures items[i] in newChains[Slot(items[i].hashv, |newChains|)] {
      var h := items[i].hashv;
      Expansion.SlotOfParent(h, |chains|);
      ExpandedChain(chains, newChains, Slot(h, |newChains|), items[i]);
    }
    forall j, i | 0 <= j < |newChains| && 0 <= i < |newChains[j]| ensures newChains[j][i] in items {
      ExpandedChain(chains, newChains, j, newChains[j][i]);
    }
  }

  lemma ExpandedChain(chains: seq<seq<Element>>, newChains: seq<seq<Element>>, j: nat, e: Element)
    requires j < |newChains| == 2 * |chains|
    requires newChains[j] == Expansion.Redistributed(chains[Expansion.Parent(j, |chains|)], |newChains|, j)
    ensures e in newChains[j] <==> e in chains[Expansion.Parent(j, |chains|)] && Slot(e.hashv, |newChains|) == j
  {
    Expansion.RedistributedMembers(chains[Expansion.Parent(j, |chains|)], |newChains|, j);
  }

  lemma IdealLength(n: nat, log2: nat)
    requires n > 0
    ensures var b := 2 * Pow2(log2);
            var ideal := ShiftRight(n, log2 + 1) + (if And(n, b - 1) != 0 then 1 else 0);
            ideal == CeilDiv(n, b) && ideal > 0
  {
    hide ShiftRight, And;
    ShiftAndMaskIsCeil(n, log2 + 1);
    CeilIsPositive(n, 2 * Pow2(log2));
  }

  lemma CeilIsPositive(n: nat, d: nat)
    requires n > 0 && d > 0
    ensures CeilDiv(n, d) > 0
  {
  }

  lemma AfterExpansion(items: seq<Element>, chains: seq<seq<Element>>, bs: seq<Bucket>, newChains: seq<seq<Element>>,
                       ideal: nat, nonideal: nat)
    requires Slotted(chains) && Covers(items, chains, null) && Distinct(items)
    requires Expansion.Expanded(chains, bs, newChains, ideal, nonideal) && 0 < |bs| == 2 * |chains|
    requires ideal == CeilDiv(|items|, |bs|)
    ensures AllLinked(bs, newChains) && Slotted(newChains) && Covers(items, newChains, null)
    ensures nonideal + ideal <= |items|
  {
    hide Slotted, AllLinked, Covers, CeilDiv, Expansion.WithinMultiplier;
    ExpandedCovers(items, chains, newChains);
    CountsAddUp(items, bs, newChains);
    Expansion.NonidealBound(bs, |items|);
  }

  /** The list and the chains link the same elements, except that `pending` is in the list only. */
  ghost predicate Linkage(items: seq<Element>, head: Element?, tail: Element?, bs: seq<Bucket>,
                          chains: seq<seq<Element>>,
                          pending: Element?)
    reads items`prev, items`next, items`hashv, Members(chains)`hashv, Members(chains)`hhPrev, Members(chains)`hhNext
  {
    && head != null && AppOrder.IsList(items, head, tail)
    && AllLinked(bs, chains) && Slotted(chains) && Covers(items, chains, pending)
  }

  lemma LinkageFacts(items: seq<Element>, head: Element?, tail: Element?, bs: seq<Bucket>, chains: seq<seq<Element>>)
    requires Linkage(items, head, tail, bs, chains, null)
    ensures forall e :: e in Members(chains) ==> e in items
    ensures |items| > 0 && Distinct(items) && |chains| == |bs| && head == items[0] && tail == items[|items| - 1]
  {
  }

  lemma WhereHandlesAre(items: seq<Element>, head: Element?, tail: Element?, bs: seq<Bucket>, chains: seq<seq<Element>>)
    requires Linkage(items, head, tail, bs, chains, null)
    ensures Slotted(chains) && Covers(items, chains, null) && Distinct(items)
    ensures forall e :: e in Members(chains) ==> e in items
  {
  }

  lemma LookupsAfter(items: seq<Element>, chains: seq<seq<Element>>, bs: seq<Bucket>, newChains: seq<seq<Element>>,
                     ideal: nat, nonideal: nat, hash: string -> nat)
    requires Slotted(chains) && Covers(items, chains, null) && Distinct(items)
    requires Expansion.Expanded(chains, bs, newChains, ideal, nonideal)
    ensures Hashed(items, hash) ==>
              forall key :: FoundIn(newChains, hash, key) == FoundIn(chains, hash, key) <==> AtMostOne(items, key)
  {
    hide Slotted, Covers, FoundIn, Expansion.Doubled, AtMostOne;
    if Hashed(items, hash) {
      forall key ensures FoundIn(newChains, hash, key) == FoundIn(chains, hash, key) <==> AtMostOne(items, key) {
        FoundAfterExpansionIff(items, chains, newChains, hash, key);
      }
    }
  }

  lemma ExpandedIsDoubled(chains: seq<seq<Element>>, bs: seq<Bucket>, newChains: seq<seq<Element>>, ideal: nat,
                          nonideal: nat)
    requires Expansion.Expanded(chains, bs, newChains, ideal, nonideal)
    ensures Expansion.Doubled(chains, newChains)
  {
  }

  lemma CountIsLength(items: seq<Element>, head: Element?, tail: Element?, bs: seq<Bucket>, chains: seq<seq<Element>>,
                      b: nat)
    requires Linkage(items, head, tail, bs, chains, null) && b < |bs|
    ensures |bs| == |chains| && bs[b].count == |chains[b]|
  {
    assert Linked(bs[b], chains[b]);
  }

  lemma ItemsInBuckets(items: seq<Element>, head: Element?, tail: Element?, bs: seq<Bucket>, chains: seq<seq<Element>>)
    requires Linkage(items, head, tail, bs, chains, null)
    ensures Expansion.TotalCount(bs) == |items| > 0
  {
    CountsAddUp(items, bs, chains);
  }

  /** The counters an expansion leaves, for themselves. */
  lemma BookkeepingAfter(chains: seq<seq<Element>>, bs: seq<Bucket>, newChains: seq<seq<Element>>, ideal: nat,
                         nonideal: nat)
    requires Expansion.Expanded(chains, bs, newChains, ideal, nonideal) && |bs| > 0
    ensures ideal > 0 && |bs| == |newChains|
    ensures nonideal == |set b: nat, p: nat | b < |newChains| && ideal <= p < |newChains[b]| :: (b, p)|
    ensures forall b :: 0 <= b < |bs| ==>
              var count := bs[b].count;
              && count == |newChains[b]|
              && bs[b].expandMult == if count <= ideal then 0 else Min(count - ideal, CeilDiv(count, ideal))
  {
    forall b | 0 <= b < |bs| ensures bs[b].count == |newChains[b]| && Expansion.Fits(bs[b], ideal) {
      assert Linked(bs[b], newChains[b]);
    }
    Expansion.ExcessIsBehind(bs, newChains, ideal, 0);
    assert bs[0..] == bs;
    assert Expansion.BehindIdeal(newChains, ideal, 0) ==
           set b: nat, p: nat | b < |newChains| && ideal <= p < |newChains[b]| :: (b, p);
    assert Expansion.Fits(bs[0], ideal);
  }

  lemma LightAfter(items: seq<Element>, head: Element?, tail: Element?, chains: seq<seq<Element>>, bs: seq<Bucket>,
                   newChains: seq<seq<Element>>, ideal: nat, nonideal: nat)
    requires Linkage(items, head, tail, bs, newChains, null)
    requires Expansion.Expanded(chains, bs, newChains, ideal, nonideal)
    requires |bs| > 0 && ideal == CeilDiv(|items|, |bs|) && |items| <= |bs| * 15
    ensures Light(bs) && ideal <= 15
  {
    hide Linkage, CeilDiv, Light, Slotted, AllLinked, Expansion.Doubled;
    ItemsInBuckets(items, head, tail, bs, newChains);
    ExpansionIsLight(bs, |items|);
  }

  method RedistributeItems(bs: array<Bucket>, ideal: nat, log2: nat,
                           ghost items: seq<Element>, ghost head: Element?, ghost tail: Element?,
                           ghost chains: seq<seq<Element>>)
    returns (nbs: array<Bucket>, nonideal: nat, ghost newChains: seq<seq<Element>>)
    requires Linkage(items, head, tail, bs[..], chains, null)
    requires bs.Length == Pow2(log2) && ideal == CeilDiv(|items|, 2 * bs.Length) && ideal > 0
    modifies items`hhPrev, items`hhNext
    ensures fresh(nbs) && nbs.Length == 2 * bs.Length
    ensures Expansion.Expanded(chains, nbs[..], newChains, ideal, nonideal)
    ensures Linkage(items, head, tail, nbs[..], newChains, null)
    ensures nonideal + ideal <= |items|
  {
    hide Slotted, Covers, CeilDiv, Expansion.Expanded, Linked, AppOrder.IsList;
    LinkageFacts(items, head, tail, bs[..], chains);
    nbs, nonideal, newChains := Expansion.Redistribute(bs, ideal, log2, chains);
    AfterExpansion(items, chains, nbs[..], newChains, ideal, nonideal);
  }

  // ----- steps that keep the linkage

  /** The element that must come behind `add` first, or NULL. */
  function Successor(cmp: Compare, items: seq<Element>, add: Element): Element? {
    var k := InsertPosition(cmp, items, add);
    if k < |items| then items[k] else null
  }

  /** HASH_AKBI_INNER_LOOP. */
  method FindPosition(cmp: Compare, head: Element, add: Element, ghost items: seq<Element>, ghost tail: Element?)
    returns (iter: Element?)
    requires AppOrder.IsList(items, head, tail)
    ensures iter == Successor(cmp, items, add)
  {
    iter := head;
    ghost var k := 0;
    while iter != null
      invariant k <= |items| && iter == if k < |items| then items[k] else null
      invariant forall j :: 0 <= j < k ==> cmp(items[j].data, add.data) <= 0
      decreases |items| - k
    {
      if cmp(iter.data, add.data) > 0 {
        break;
      }
      assert items[k].next == After(items, k);
      iter, k := iter.next, k + 1;
    }
    assert k == InsertPosition(cmp, items, add);
  }

  lemma LinkageIsList(items: seq<Element>, head: Element?, tail: Element?, bs: seq<Bucket>, chains: seq<seq<Element>>)
    requires Linkage(items, head, tail, bs, chains, null)
    ensures AppOrder.IsList(items, head, tail)
  {
  }

  method LocatePosition(cmp: Compare, head: Element, add: Element, ghost items: seq<Element>, ghost tail: Element?,
                        ghost bs: seq<Bucket>, ghost chains: seq<seq<Element>>)
    returns (iter: Element?)
    requires Linkage(items, head, tail, bs, chains, null)
    ensures iter == Successor(cmp, items, add)
    ensures Linkage(items, head, tail, bs, chains, null)
  {
    hide Linkage, AppOrder.IsList;
    LinkageIsList(items, head, tail, bs, chains);
    LinkageFacts(items, head, tail, bs, chains);
    iter := FindPosition(cmp, head, add, items, tail);
  }

  /** The list part of ordered insertion in front of an element. */
  method InsertItem(head: Element, add: Element, iter: Element, ghost k: nat, ghost items: seq<Element>,
                    ghost tail: Element?,
                    ghost bs: seq<Bucket>, ghost chains: seq<seq<Element>>)
    returns (head': Element)
    requires Linkage(items, head, tail, bs, chains, null) && add !in items && k < |items| && items[k] == iter
    modifies add`next, add`prev, items`next, items`prev
    ensures Linkage(items[..k] + [add] + items[k..], head', tail, bs, chains, add)
  {
    hide Linked, AppOrder.NextFollows, AppOrder.PrevFollows;
    head' := AppOrder.InsertBefore(head, add, iter, k, items);
    CoversWithPending(items, chains, add, items[..k] + [add] + items[k..]);
  }

  lemma CoversPermuted(items: seq<Element>, items': seq<Element>, chains: seq<seq<Element>>)
    requires |chains| > 0 && Covers(items, chains, null) && multiset(items) == multiset(items')
    ensures Covers(items', chains, null)
  {
    AppOrder.SameElements(items, items');
    AppOrder.SameElements(items', items);
    forall b, i | 0 <= b < |chains| && 0 <= i < |chains[b]| ensures chains[b][i] in items' {
      assert chains[b][i] in items;
    }
  }

  lemma {:induction false} PassesArePermutation(cmp: Compare, l: seq<Element>, size: nat)
    requires size > 0
    ensures multiset(MergePasses(cmp, l, size)) == multiset(l)
    decreases |l| - size
  {
    PassIsPermutation(cmp, l, size);
    if |l| > 2 * size {
      PassesArePermutation(cmp, MergePass(cmp, l, size), 2 * size);
    }
  }

  lemma SortMembers(cmp: Compare, l: seq<Element>)
    ensures forall i :: 0 <= i < |MergeSort(cmp, l)| ==> MergeSort(cmp, l)[i] in l
    ensures |MergeSort(cmp, l)| == |l|
  {
    PassesArePermutation(cmp, l, 1);
    AppOrder.SameElements(MergeSort(cmp, l), l);
  }

  lemma InsertMembers(cmp: Compare, l: seq<Element>, e: Element)
    ensures var l' := InsertInOrder(cmp, l, e); forall i :: 0 <= i < |l'| ==> l'[i] in l || l'[i] == e
  {
  }

  lemma SortOfNothing(cmp: Compare)
    ensures MergeSort(cmp, []) == []
  {
  }

  /** HASH_SRT on the linked elements: chains keep their handles. */
  method SortItems(cmp: Compare, head: Element, tail: Element?, ghost items: seq<Element>, ghost bs: seq<Bucket>,
                   ghost chains: seq<seq<Element>>)
    returns (head': Element?, tail': Element?, ghost passes: nat)
    requires Linkage(items, head, tail, bs, chains, null)
    modifies items`prev, items`next
    ensures head' != null && Linkage(MergeSort(cmp, items), head', tail', bs, chains, null)
    ensures passes == PassCount(|items|, 1)
  {
    hide Linked, AppOrder.NextFollows, AppOrder.PrevFollows, MergePasses;
    head', tail', passes := AppOrder.Sort(cmp, head, tail, items);
    PassesArePermutation(cmp, items, 1);
    CoversPermuted(items, MergeSort(cmp, items), chains);
    assert |items| > 0;
  }

  /** Only the sole element of a list has neither neighbour, which is how HASH_DELETE_HH recognises it. */
  lemma SoleElement(items: seq<Element>, head: Element?, tail: Element?, k: nat)
    requires AppOrder.IsList(items, head, tail) && k < |items|
    ensures items[k].prev == null && items[k].next == null <==> |items| == 1
  {
    assert items[k].prev == Before(items, k) && items[k].next == After(items, k);
  }

  lemma CoversWithPending(items: seq<Element>, chains: seq<seq<Element>>, add: Element, items': seq<Element>)
    requires |chains| > 0 && Covers(items, chains, null) && add !in items
    requires forall e :: e in items' <==> e in items || e == add
    ensures Covers(items', chains, add)
  {
    forall i | 0 <= i < |items'| && items'[i] != add ensures items'[i] in chains[Slot(items'[i].hashv, |chains|)] {
      assert items'[i] in items;
    }
  }

  lemma CoversAfterPush(items: seq<Element>, chains: seq<seq<Element>>, add: Element)
    requires |chains| > 0 && Covers(items, chains, add) && add in items
    ensures var b := Slot(add.hashv, |chains|); Covers(items, chains[b := [add] + chains[b]], null) && add !in chains[b]
  {
  }

  /** HASH_APPEND_LIST on a non-empty table. */
  method AppendItem(add: Element, head: Element, tail: Element, ghost items: seq<Element>, ghost bs: seq<Bucket>,
                    ghost chains: seq<seq<Element>>)
    requires Linkage(items, head, tail, bs, chains, null) && add !in items
    modifies add`next, add`prev, tail`next
    ensures Linkage(items + [add], head, add, bs, chains, add)
  {
    hide Linked;
    assert AppOrder.IsList(items, items[0], tail);
    AppOrder.Append(add, tail, items);
    assert AllLinked(bs, chains);
    assert Slotted(chains);
    CoversWithPending(items, chains, add, items + [add]);
    assert AppOrder.IsList(items + [add], head, add);
  }

  /** HASH_ADD_TO_BKT without the expansion. */
  method LinkIntoBucket(bs: array<Bucket>, bkt: nat, add: Element, ghost items: seq<Element>, ghost head: Element?,
                        ghost tail: Element?, ghost chains: seq<seq<Element>>)
    requires Linkage(items, head, tail, bs[..], chains, add) && add in items
    requires bs.Length > 0 && bkt == Slot(add.hashv, bs.Length)
    modifies bs, items`hhPrev, items`hhNext
    ensures bkt < |chains| && Linkage(items, head, tail, bs[..], chains[bkt := [add] + chains[bkt]], null)
    ensures bs[..] == old(bs[..])[bkt := bs[bkt]]
    ensures bs[bkt].expandMult == old(bs[bkt].expandMult) && bs[bkt].count == old(bs[bkt].count) + 1
  {
    hide Slotted, Covers, AppOrder.IsList, Linked;
    CoversAfterPush(items, chains, add);
    ChainMembers(items, chains, bkt, add);
    PushFront(bs, bkt, add, chains);
  }

  lemma CoversAfterRemoval(items: seq<Element>, k: nat, chains: seq<seq<Element>>, b: nat, kc: nat)
    requires Slotted(chains) && Covers(items, chains, null) && Distinct(items)
    requires k < |items| && b < |chains| && kc < |chains[b]| && chains[b][kc] == items[k]
    ensures Covers(Without(items, k), chains[b := Without(chains[b], kc)], null)
  {
    var items', c, c' := Without(items, k), chains[b], Without(chains[b], kc);
    var chains' := chains[b := c'];
    forall i | 0 <= i < |items'| ensures items'[i] in chains'[Slot(items'[i].hashv, |chains|)] {
      var j := if i < k then i else i + 1;
      assert items'[i] == items[j];
      var s := Slot(items[j].hashv, |chains|);
      if s == b {
        var p :| 0 <= p < |c| && c[p] == items[j];
        assert c'[if p < kc then p else p - 1] == items[j];
      }
    }
    forall b', i | 0 <= b' < |chains'| && 0 <= i < |chains'[b']| ensures chains'[b'][i] in items' {
      RemovedFromOtherChains(chains, b, kc, b', i);
      var e := chains'[b'][i];
      assert e in items && e != items[k];
      var j :| 0 <= j < |items| && items[j] == e;
      assert items'[if j < k then j else j - 1] == e;
    }
  }

  lemma RemovedFromOtherChains(chains: seq<seq<Element>>, b: nat, kc: nat, b': nat, i: nat)
    requires Slotted(chains) && b < |chains| && kc < |chains[b]| && b' < |chains|
    requires i < |chains[b := Without(chains[b], kc)][b']|
    ensures var e := chains[b := Without(chains[b], kc)][b'][i]; e in chains[b'] && e != chains[b][kc]
  {
    if b' == b {
      var j := if i < kc then i else i + 1;
      assert Without(chains[b], kc)[i] == chains[b][j];
    } else {
      assert Slot(chains[b][kc].hashv, |chains|) == b;
    }
  }

  /** The list part of HASH_DELETE_HH leaves the chains alone. */
  method UnlinkFromList(head: Element, tail: Element, del: Element, ghost k: nat, ghost items: seq<Element>,
                        ghost bs: seq<Bucket>, ghost chains: seq<seq<Element>>)
    returns (head': Element?, tail': Element?)
    requires Linkage(items, head, tail, bs, chains, null) && |items| >= 2 && k < |items| && items[k] == del
    modifies items`prev, items`next
    ensures head' != null && AppOrder.IsList(Without(items, k), head', tail')
    ensures AllLinked(bs, chains) && Slotted(chains) && Covers(items, chains, null) && Distinct(items)
  {
    hide Linked, AppOrder.NextFollows, AppOrder.PrevFollows;
    head', tail' := AppOrder.Remove(head, tail, del, k, items);
  }

  /** The pointer surgery of HASH_DELETE_HH on a table of at least two elements. */
  method UnlinkItem(bs: array<Bucket>, bkt: nat, head: Element, tail: Element, del: Element, ghost k: nat,
                    ghost items: seq<Element>,
                    ghost chains: seq<seq<Element>>)
    returns (head': Element?, tail': Element?, ghost chains': seq<seq<Element>>)
    requires Linkage(items, head, tail, bs[..], chains, null) && |items| >= 2 && k < |items| && items[k] == del
    requires bs.Length > 0 && bkt == Slot(del.hashv, bs.Length)
    modifies bs, items`prev, items`next, items`hhPrev, items`hhNext
    ensures head' != null && Linkage(Without(items, k), head', tail', bs[..], chains', null)
    ensures chains' == ChainsMinus(chains, del) && (Light(old(bs[..])) ==> Light(bs[..]))
  {
    ChainPerBucket(items, head, tail, bs[..], chains);
    hide Linkage, Slotted, Covers, AllLinked, AppOrder.IsList, Without, Distinct, ChainsMinus, Light;
    ghost var all := bs[..];
    head', tail' := UnlinkFromList(head, tail, del, k, items, all, chains);
    assert bs[..] == all;
    chains' := UnlinkFromChain(bs, bkt, del, k, items, head', tail', chains);
  }

  lemma ChainPerBucket(items: seq<Element>, head: Element?, tail: Element?, bs: seq<Bucket>, chains: seq<seq<Element>>)
    requires Linkage(items, head, tail, bs, chains, null)
    ensures |chains| == |bs|
  {
  }

  /** The chain part of HASH_DELETE_HH. */
  method UnlinkFromChain(bs: array<Bucket>, bkt: nat, del: Element, ghost k: nat, ghost items: seq<Element>,
                         ghost head: Element?, ghost tail: Element?, ghost chains: seq<seq<Element>>)
    returns (ghost chains': seq<seq<Element>>)
    requires k < |items| && head != null && AppOrder.IsList(Without(items, k), head, tail)
    requires AllLinked(bs[..], chains) && Slotted(chains) && Covers(items, chains, null) && Distinct(items)
    requires items[k] == del && bs.Length == |chains| && bkt == Slot(del.hashv, bs.Length)
    modifies bs, items`hhPrev, items`hhNext
    ensures Linkage(Without(items, k), head, tail, bs[..], chains', null) && chains' == ChainsMinus(chains, del)
    ensures Light(old(bs[..])) ==> Light(bs[..])
  {
    hide Covers, AllLinked, AppOrder.IsList, Light;
    ghost var was := bs[..];
    ghost var kc := ChainPosition(items, chains, k, bkt);
    ChainWithoutIsMinus(chains, bkt, kc);
    CoversAfterRemoval(items, k, chains, bkt, kc);
    DeleteInBucket(bs, bkt, del, kc, chains);
    if Light(was) {
      StillLight(was, bkt, bs[bkt]);
    }
    chains' := chains[bkt := Without(chains[bkt], kc)];
  }

  lemma ChainPosition(items: seq<Element>, chains: seq<seq<Element>>, k: nat, b: nat) returns (kc: nat)
    requires Slotted(chains) && Covers(items, chains, null) && k < |items| && b == Slot(items[k].hashv, |chains|)
    ensures kc < |chains[b]| && chains[b][kc] == items[k]
    ensures forall i :: 0 <= i < |chains[b]| ==> chains[b][i] in items
  {
    kc :| 0 <= kc < |chains[b]| && chains[b][kc] == items[k];
  }

  lemma ChainMembers(items: seq<Element>, chains: seq<seq<Element>>, b: nat, pending: Element?)
    requires b < |chains| && Covers(items, chains, pending)
    ensures forall i :: 0 <= i < |chains[b]| ==> chains[b][i] in items
  {
  }

  /** `nonideal_items > (num_items >> 1)` counts an expansion as ineffective. */
  function IneffectiveInARow(nonideal: nat, n: nat, ineff: nat): (r: nat)
    ensures r == if 2 * nonideal > n then ineff + 1 else 0
  {
    ShiftIsDivision(n, 1);
    if nonideal > ShiftRight(n, 1) then ineff + 1 else 0
  }

  lemma InitialBuckets()
    ensures Pow2(INITIAL_NUM_BUCKETS_LOG2) == INITIAL_NUM_BUCKETS
  {
    assert Pow2(5) == 32;
  }

  lemma EmptyBuckets(bs: seq<Bucket>, chains: seq<seq<Element>>)
    requires |bs| == |chains| > 0
    requires forall b :: 0 <= b < |bs| ==> bs[b] == Bucket(null, 0, 0) && chains[b] == []
    ensures AllLinked(bs, chains) && Slotted(chains)
  {
  }

  ghost function EmptyChains(): seq<seq<Element>> {
    seq(INITIAL_NUM_BUCKETS, _ => [])
  }

  /** A new handle is pushed in front of its chain; an expansion may follow, but not below the threshold. */
  ghost predicate Chained(chains: seq<seq<Element>>, add: Element, chains': seq<seq<Element>>)
    reads add`hashv, Members(chains)`hashv
  {
    && chains != []
    && var b := Slot(add.hashv, |chains|);
       var pushed := chains[b := [add] + chains[b]];
       && (chains' == pushed || Expansion.Doubled(pushed, chains'))
       && (|chains[b]| + 1 < BKT_CAPACITY_THRESH ==> chains' == pushed)
  }

  class HashTable {
    /** HASH_FUNCTION. */
    const hash: string -> nat
    var head: Element?
    var tail: Element?
    var buckets: array<Bucket>
    var numBuckets: nat
    var log2NumBuckets: nat
    var numItems: nat
    var idealChainMaxlen: nat
    var nonidealItems: nat
    var ineffExpands: nat
    var noexpand: bool
    /** The elements in application order. */
    ghost var items: seq<Element>
    /** The chain of every bucket. */
    ghost var chains: seq<seq<Element>>

    ghost predicate Structure(pending: Element?)
      reads this, buckets, items, Members(chains)
    {
      && head != null && Linkage(items, head, tail, buckets[..], chains, pending)
      && (pending != null ==> pending in items)
      && numBuckets == buckets.Length == Pow2(log2NumBuckets)
      && numItems + (if pending == null then 0 else 1) == |items|
      && (noexpand <==> ineffExpands > 1)
    }

    /** Expansion keeps the chains short, until it is inhibited. */
    ghost predicate Balanced()
      reads this`idealChainMaxlen, this`noexpand, this`buckets, buckets
    {
      idealChainMaxlen <= 15 && (!noexpand ==> Light(buckets[..]))
    }

    /** HASH_FSCK, the tail pointer, the bucket of every element and its hash value; no element is freed. */
    ghost predicate Valid()
      reads this, buckets, items, Members(chains)
    {
      && (if head == null then items == [] else Structure(null) && Balanced())
      && forall i :: 0 <= i < |items| ==> items[i].hashv == hash(items[i].key) && !items[i].freed
    }

    constructor (hash: string -> nat)
      ensures Valid() && items == [] && this.hash == hash && fresh(buckets)
    {
      this.hash := hash;
      head, tail := null, null;
      buckets := new Bucket[0];
      numBuckets, log2NumBuckets, numItems := 0, 0, 0;
      idealChainMaxlen, nonidealItems, ineffExpands, noexpand := 0, 0, 0, false;
      items, chains := [], [];
    }

    /** What a lookup finds. */
    ghost function Found(key: string): Element?
      reads this, Members(chains)`key
    {
      if head == null then null else FoundIn(chains, hash, key)
    }

    /** HASH_FIND: the first element of its bucket with the key, or NULL when no element has it. */
    method Find(key: string) returns (out: Element?)
      requires Valid()
      ensures out == Found(key)
      ensures out == null <==> !HasKey(items, key)
      ensures out != null ==> out in items && out.key == key
    {
      out := null;
      if head != null {
        var hashv := hash(key);
        var bkt := Expansion.ToBucket(hashv, numBuckets);
        Expansion.ToBucketIsSlot(hashv, numBuckets, log2NumBuckets);
        assert Linked(buckets[..][bkt], chains[bkt]);
        ghost var k;
        out, k := FindInBucket(buckets[bkt], key, hashv, chains[bkt]);
        if out != null {
          assert chains[bkt][k] in items;
          BucketHashed(bkt);
          FirstWithAt(chains[bkt], key, k);
        } else {
          forall i | 0 <= i < |items| ensures items[i].key != key {
            if items[i].hashv == hashv {
              assert items[i] in chains[bkt];
            }
          }
        }
      }
    }

    lemma BucketHashed(b: nat)
      requires Valid() && head != null && b < |chains|
      ensures forall i :: 0 <= i < |chains[b]| ==> chains[b][i].hashv == hash(chains[b][i].key)
    {
      forall i | 0 <= i < |chains[b]| ensures chains[b][i].hashv == hash(chains[b][i].key) {
        assert chains[b][i] in items;
      }
    }

    /** HASH_MAKE_TABLE. */
    method MakeTable(add: Element)
      modifies this
      ensures head == old(head) && items == old(items) && tail == add
      ensures fresh(buckets) && numBuckets == buckets.Length == Pow2(log2NumBuckets) && numItems == 0
      ensures numBuckets == 32 && log2NumBuckets == 5
      ensures forall b :: 0 <= b < numBuckets ==> buckets[b] == Bucket(null, 0, 0)
      ensures chains == EmptyChains() && AllLinked(buckets[..], chains) && Slotted(chains)
      ensures ineffExpands == 0 && !noexpand && Balanced()
    {
      hide AllLinked, Slotted, Pow2, Light;
      tail := add;
      numBuckets, log2NumBuckets := INITIAL_NUM_BUCKETS, INITIAL_NUM_BUCKETS_LOG2;
      buckets := new Bucket[INITIAL_NUM_BUCKETS](_ => Bucket(null, 0, 0));
      numItems, idealChainMaxlen, nonidealItems, ineffExpands, noexpand := 0, 0, 0, 0, false;
      chains := EmptyChains();
      InitialBuckets();
      EmptyBuckets(buckets[..], chains);
      EmptyIsLight(buckets[..]);
    }

    /** The part of HASH_EXPAND_BUCKETS that doubles the buckets and moves every handle. */
    method DoubleBuckets()
      requires Structure(null)
      modifies this`buckets, this`numBuckets, this`log2NumBuckets, this`idealChainMaxlen, this`nonidealItems,
               this`chains, items`hhPrev, items`hhNext
      ensures Structure(null) && fresh(buckets)
      ensures Expansion.Expanded(old(chains), buckets[..], chains, idealChainMaxlen, nonidealItems)
      ensures numBuckets == 2 * old(numBuckets)
      ensures idealChainMaxlen == CeilDiv(numItems, numBuckets)
      ensures nonidealItems + idealChainMaxlen <= numItems
    {
      hide Linkage, Expansion.Expanded, CeilDiv, And, ShiftRight, Pow2;
      LinkageFacts(items, head, tail, buckets[..], chains);
      IdealLength(numItems, log2NumBuckets);
      Pow2Doubles(log2NumBuckets);
      var ideal := ShiftRight(numItems, log2NumBuckets + 1) + (if And(numItems, numBuckets * 2 - 1) != 0 then 1 else 0);
      var newBuckets, nonideal, newChains :=
        RedistributeItems(buckets, ideal, log2NumBuckets, items, head, tail, chains);
      idealChainMaxlen, nonidealItems := ideal, nonideal;
      Install(newBuckets, newChains);
    }

    /** The doubled bucket array replaces the old one. */
    method Install(newBuckets: array<Bucket>, ghost newChains: seq<seq<Element>>)
      requires head != null && Linkage(items, head, tail, newBuckets[..], newChains, null)
      requires numItems == |items| && newBuckets.Length == Pow2(log2NumBuckets + 1) == 2 * numBuckets
      requires noexpand <==> ineffExpands > 1
      requires Expansion.Expanded(chains, newBuckets[..], newChains, idealChainMaxlen, nonidealItems)
      modifies this`buckets, this`numBuckets, this`log2NumBuckets, this`chains
      ensures Structure(null) && buckets == newBuckets && numBuckets == 2 * old(numBuckets)
      ensures Expansion.Expanded(old(chains), buckets[..], chains, idealChainMaxlen, nonidealItems)
    {
      hide Linkage, Pow2, Expansion.Expanded;
      ghost var bs := newBuckets[..];
      numBuckets := numBuckets * 2;
      log2NumBuckets := log2NumBuckets + 1;
      buckets, chains := newBuckets, newChains;
      assert buckets[..] == bs;
    }

    /** HASH_EXPAND_BUCKETS: two ineffective expansions in a row inhibit all further ones. */
    method ExpandBuckets()
      requires Structure(null) && !noexpand && numItems <= 30 * numBuckets
      modifies this`buckets, this`numBuckets, this`log2NumBuckets, this`idealChainMaxlen, this`nonidealItems,
               this`ineffExpands, this`noexpand, this`chains, items`hhPrev, items`hhNext
      ensures Structure(null) && fresh(buckets) && Balanced()
      ensures Expansion.Expanded(old(chains), buckets[..], chains, idealChainMaxlen, nonidealItems)
      ensures numBuckets == 2 * old(numBuckets)
      ensures idealChainMaxlen == CeilDiv(numItems, numBuckets) && idealChainMaxlen > 0
      ensures nonidealItems == |set b: nat, p: nat | b < |chains| && idealChainMaxlen <= p < |chains[b]| :: (b, p)|
      ensures nonidealItems + idealChainMaxlen <= numItems
      ensures forall b :: 0 <= b < numBuckets ==>
                var count := buckets[b].count;
                count == |chains[b]| && buckets[b].expandMult ==
                  if count <= idealChainMaxlen then 0
                  else Min(count - idealChainMaxlen, CeilDiv(count, idealChainMaxlen))
      ensures ineffExpands == if 2 * nonidealItems > numItems then old(ineffExpands) + 1 else 0
      ensures noexpand <==> ineffExpands >= 2
      ensures Hashed(items, hash) ==>
                forall key :: FoundIn(chains, hash, key) == old(FoundIn(chains, hash, key)) <==> AtMostOne(items, key)
    {
      hide Linkage, Expansion.Expanded, CeilDiv, Slotted, Covers, FoundIn, Expansion.Doubled, Hashed, AtMostOne, Light;
      ghost var was := chains;
      WhereHandlesAre(items, head, tail, buckets[..], chains);
      Expand();
      LookupsAfter(items, was, buckets[..], chains, idealChainMaxlen, nonidealItems, hash);
    }

    /** The expansion and its bookkeeping. */
    method Expand()
      requires Structure(null) && !noexpand && numItems <= 30 * numBuckets
      modifies this`buckets, this`numBuckets, this`log2NumBuckets, this`idealChainMaxlen, this`nonidealItems,
               this`ineffExpands, this`noexpand, this`chains, items`hhPrev, items`hhNext
      ensures Structure(null) && fresh(buckets) && Balanced()
      ensures Expansion.Expanded(old(chains), buckets[..], chains, idealChainMaxlen, nonidealItems)
      ensures numBuckets == 2 * old(numBuckets)
      ensures idealChainMaxlen == CeilDiv(numItems, numBuckets) && idealChainMaxlen > 0
      ensures nonidealItems == |set b: nat, p: nat | b < |chains| && idealChainMaxlen <= p < |chains[b]| :: (b, p)|
      ensures nonidealItems + idealChainMaxlen <= numItems
      ensures forall b :: 0 <= b < numBuckets ==>
                var count := buckets[b].count;
                count == |chains[b]| && buckets[b].expandMult ==
                  if count <= idealChainMaxlen then 0
                  else Min(count - idealChainMaxlen, CeilDiv(count, idealChainMaxlen))
      ensures ineffExpands == if 2 * nonidealItems > numItems then old(ineffExpands) + 1 else 0
      ensures noexpand <==> ineffExpands >= 2
    {
      hide Linkage, Expansion.Expanded, CeilDiv, Slotted, Covers, Expansion.Doubled, Light;
      ghost var was := chains;
      WhereHandlesAre(items, head, tail, buckets[..], chains);
      DoubleBuckets();
      LightAfter(items, head, tail, was, buckets[..], chains, idealChainMaxlen, nonidealItems);
      BookkeepingAfter(was, buckets[..], chains, idealChainMaxlen, nonidealItems);
      WhereHandlesAre(items, head, tail, buckets[..], chains);
      JudgeExpansion();
    }

    /** The last part of HASH_EXPAND_BUCKETS. */
    method JudgeExpansion()
      requires Structure(null) && !noexpand
      modifies this`ineffExpands, this`noexpand
      ensures Structure(null) && buckets[..] == old(buckets[..])
      ensures ineffExpands == if 2 * nonidealItems > numItems then old(ineffExpands) + 1 else 0
      ensures noexpand <==> ineffExpands >= 2
    {
      hide Linkage, Pow2;
      ghost var bs := buckets[..];
      ineffExpands := IneffectiveInARow(nonidealItems, numItems, ineffExpands);
      if ineffExpands > 1 {
        noexpand := true;
      }
      assert buckets[..] == bs;
    }

    // ----- adding

    /** HASH_ADD_TO_TABLE: the pending element is counted and chained; a full bucket triggers an expansion. */
    method AddToTable(add: Element)
      requires Structure(add) && Balanced()
      modifies this`buckets, this`numBuckets, this`log2NumBuckets, this`idealChainMaxlen, this`nonidealItems,
               this`numItems, this`ineffExpands, this`noexpand, this`chains, buckets, items`hhPrev, items`hhNext
      ensures Balanced()
      ensures Structure(null) && (buckets == old(buckets) || fresh(buckets)) && Chained(old(chains), add, chains)
      ensures var b := old(buckets[Slot(add.hashv, buckets.Length)]);
              var full := b.count + 1 >= (b.expandMult + 1) * 10;
              numBuckets == if full && !old(noexpand) then 2 * old(numBuckets) else old(numBuckets)
    {
      hide Linkage, Pow2, Expansion.Expanded, FoundIn, Hashed, AtMostOne, Expansion.Doubled, Light;
      ghost var was := buckets[..];
      var bkt := ChainItem(add);
      ghost var pushed := chains;
      ItemsInBuckets(items, head, tail, buckets[..], chains);
      if !noexpand {
        OneMoreThanLight(was, bkt, buckets[bkt]);
        if buckets[bkt].count < Threshold(buckets[bkt]) {
          StillLight(was, bkt, buckets[bkt]);
        }
      }
      if buckets[bkt].count >= (buckets[bkt].expandMult + 1) * BKT_CAPACITY_THRESH && !noexpand {
        ExpandBuckets();
        ExpandedIsDoubled(pushed, buckets[..], chains, idealChainMaxlen, nonidealItems);
      }
    }

    /** The pending element is counted and pushed in front of its chain. */
    method ChainItem(add: Element) returns (bkt: nat)
      requires Structure(add)
      modifies this`numItems, this`chains, buckets, items`hhPrev, items`hhNext
      ensures Structure(null) && bkt < |old(chains)| == buckets.Length && bkt == Slot(add.hashv, buckets.Length)
      ensures chains == old(chains)[bkt := [add] + old(chains)[bkt]] && buckets[bkt].count == |chains[bkt]|
      ensures buckets[..] == old(buckets[..])[bkt := buckets[bkt]]
      ensures buckets[bkt].expandMult == old(buckets[bkt].expandMult)
      ensures buckets[bkt].count == old(buckets[bkt].count) + 1
    {
      hide Linkage, Pow2;
      numItems := numItems + 1;
      bkt := Expansion.ToBucket(add.hashv, numBuckets);
      Expansion.ToBucketIsSlot(add.hashv, numBuckets, log2NumBuckets);
      LinkIntoBucket(buckets, bkt, add, items, head, tail, chains);
      chains := chains[bkt := [add] + chains[bkt]];
      CountIsLength(items, head, tail, buckets[..], chains, bkt);
    }

    /** The list part of HASH_ADD: a table is made for the first element, any other one is appended. */
    method AddToList(add: Element)
      requires (if head == null then items == [] else Structure(null) && Balanced()) && add !in items
      modifies this, add`prev, add`next, items`next
      ensures Structure(add) && Balanced() && items == old(items) + [add]
      ensures chains == if old(items) == [] then EmptyChains() else old(chains)
      ensures buckets == old(buckets) || fresh(buckets)
    {
      hide Linkage, Pow2;
      if head == null {
        add.next := null;
        add.prev := null;
        MakeTable(add);
        head := add;
        FirstItem(add, buckets[..], chains);
        assert items + [add] == [add];
      } else {
        LinkageFacts(items, head, tail, buckets[..], chains);
        ghost var bs := buckets[..];
        AppendItem(add, head, tail, items, bs, chains);
        tail := add;
        assert buckets[..] == bs;
      }
      items := items + [add];
    }

    /** HASH_ADD: the element goes to the end of the application order. */
    method Add(add: Element, key: string)
      requires Valid() && add !in items && !add.freed
      modifies this, buckets, add, items`prev, items`next, items`hhPrev, items`hhNext
      ensures Valid() && (buckets == old(buckets) || fresh(buckets))
      ensures items == old(items) + [add] && add.key == key && !add.freed
      ensures Chained(if old(items) == [] then EmptyChains() else old(chains), add, chains)
    {
      hide Linkage, Pow2, Chained;
      if head != null {
        LinkageFacts(items, head, tail, buckets[..], chains);
      }
      add.hashv := hash(key);
      add.key := key;
      AddLast(add);
    }

    /** The element, with its hash value set, enters list and table. */
    method AddLast(add: Element)
      requires (if head == null then items == [] else Structure(null) && Balanced()) && add !in items
      modifies this, buckets, add`prev, add`next, add`hhPrev, add`hhNext
      modifies items`prev, items`next, items`hhPrev, items`hhNext
      ensures Structure(null) && Balanced() && items == old(items) + [add]
      ensures buckets == old(buckets) || fresh(buckets)
      ensures Chained(if old(items) == [] then EmptyChains() else old(chains), add, chains)
    {
      hide Linkage, Pow2, Chained;
      AddToList(add);
      AddToTable(add);
    }

    // ----- deleting

    /** HASH_DELETE: deleting the last element gives the table back, any other one is unlinked from list and chain. */
    method Delete(del: Element)
      requires Valid() && del in items
      modifies this, buckets, items`prev, items`next, items`hhPrev, items`hhNext
      ensures Valid() && buckets == old(buckets)
      ensures items == Minus(old(items), del) && (items != [] ==> chains == ChainsMinus(old(chains), del))
    {
      hide Linkage, Pow2, ChainsMinus, Minus, Without, Light;
      ghost var k :| 0 <= k < |items| && items[k] == del;
      ghost var was := items;
      DeleteFacts(k);
      if del.prev == null && del.next == null {
        assert items == [del];
        head := null;
        items := [];
      } else {
        DeleteOneOfMany(del, k);
        forall i | 0 <= i < |items| ensures items[i].hashv == hash(items[i].key) && !items[i].freed {
          assert items[i] in was;
        }
      }
    }

    /** What an iteration in application order relies on. */
    lemma IterationFacts()
      requires Valid()
      ensures Distinct(items) && head == AppOrder.First(items)
      ensures forall i :: 0 <= i < |items| ==> items[i].next == After(items, i)
      ensures forall e :: e in Members(chains) && head != null ==> e in items
    {
    }

    /** As long as expansion is not inhibited, there are fewer than 30 items per bucket, no chain is longer than 15
        times its multiples, and the multiples average below 3; the ideal chain length never exceeds 15. */
    lemma ChainsStayShort()
      requires Valid() && head != null
      ensures idealChainMaxlen <= 15
      ensures !noexpand ==>
                && numItems < 30 * numBuckets && TotalMultiples(buckets[..]) < 3 * numBuckets
                && |chains| == numBuckets
                && forall b :: 0 <= b < numBuckets ==> |chains[b]| <= 15 * (buckets[b].expandMult + 1)
    {
      hide Linkage;
      ItemsInBuckets(items, head, tail, buckets[..], chains);
      if !noexpand {
        LightBounds(buckets[..]);
        LinkageFacts(items, head, tail, buckets[..], chains);
        forall b | 0 <= b < numBuckets ensures |chains[b]| <= 15 * (buckets[b].expandMult + 1) {
          CountIsLength(items, head, tail, buckets[..], chains, b);
        }
      }
    }

    /** Every element is in the chain of the bucket that its key's hash value, masked or taken modulo the number of
        buckets, selects. */
    lemma ItemIsInItsBucket(i: nat)
      requires Valid() && i < |items|
      ensures |chains| == numBuckets == Pow2(log2NumBuckets)
      ensures items[i] in chains[hash(items[i].key) % numBuckets]
      ensures And(hash(items[i].key), numBuckets - 1) == hash(items[i].key) % numBuckets
    {
      hide And, Pow2;
      MaskIsRemainder(hash(items[i].key), log2NumBuckets);
      assert items[i] in chains[Slot(items[i].hashv, |chains|)];
    }

    lemma DistinctItems()
      requires Valid()
      ensures Distinct(items)
    {
    }

    lemma DeleteFacts(k: nat)
      requires Valid() && k < |items|
      ensures head != null && Distinct(items) && Minus(items, items[k]) == Without(items, k)
      ensures |Without(items, k)| == |items| - 1
      ensures forall i :: 0 <= i < |Without(items, k)| ==> Without(items, k)[i] in items
      ensures items[k].prev == null && items[k].next == null <==> |items| == 1
    {
      SoleElement(items, head, tail, k);
      MinusIsWithout(items, k);
    }

    method DeleteOneOfMany(del: Element, ghost k: nat)
      requires Structure(null) && Balanced() && |items| >= 2 && k < |items| && items[k] == del
      modifies this`head, this`tail, this`numItems, this`items, this`chains, buckets
      modifies items`prev, items`next, items`hhPrev, items`hhNext
      ensures Structure(null) && Balanced()
      ensures items == Without(old(items), k) && chains == ChainsMinus(old(chains), del)
    {
      hide Linkage, Pow2, ChainsMinus, Without, Light;
      LinkageFacts(items, head, tail, buckets[..], chains);
      WithoutLength(items, k);
      var bkt := Expansion.ToBucket(del.hashv, numBuckets);
      Expansion.ToBucketIsSlot(del.hashv, numBuckets, log2NumBuckets);
      var head', tail', chains' := UnlinkItem(buckets, bkt, head, tail, del, k, items, chains);
      Shrink(head', tail', Without(items, k), chains');
    }

    /** Head, tail and counter after one of many items has been unlinked. */
    method Shrink(head': Element?, tail': Element?, ghost items': seq<Element>, ghost chains': seq<seq<Element>>)
      requires head' != null && Linkage(items', head', tail', buckets[..], chains', null)
      requires numBuckets == buckets.Length == Pow2(log2NumBuckets) && numItems == |items'| + 1
      requires noexpand <==> ineffExpands > 1
      modifies this`head, this`tail, this`numItems, this`items, this`chains
      ensures Structure(null) && items == items' && chains == chains'
    {
      hide Linkage, Pow2;
      ghost var bs := buckets[..];
      head, tail, chains, items := head', tail', chains', items';
      numItems := numItems - 1;
      assert buckets[..] == bs;
    }

    /** HASH_REPLACE: an element with the same key makes room for the new one, which goes to the end. */
    method Replace(add: Element, key: string) returns (replaced: Element?)
      requires Valid() && add !in items && !add.freed
      modifies this, buckets, add, items`prev, items`next, items`hhPrev, items`hhNext
      ensures Valid() && (buckets == old(buckets) || fresh(buckets))
      ensures replaced == old(Found(key)) && (replaced == null <==> !old(HasKey(items, key)))
      ensures replaced != null ==> replaced in old(items) && old(replaced.key) == key
      ensures items == (if replaced == null then old(items) else Minus(old(items), replaced)) + [add]
      ensures Chained(if |items| == 1 then EmptyChains()
                      else if replaced == null then old(chains)
                      else ChainsMinus(old(chains), replaced), add, chains)
      ensures add.key == key
    {
      hide Linkage, Pow2, Minus, FoundIn, Chained, ChainsMinus, Light;
      if head != null {
        LinkageFacts(items, head, tail, buckets[..], chains);
      }
      ghost var bs := buckets[..];
      replaced := Find(key);
      assert buckets[..] == bs;
      if replaced != null {
        DistinctItems();
        MinusMembers(items, replaced);
        Delete(replaced);
      }
      Add(add, key);
    }

    // ----- application order

    /** HASH_ADD_INORDER: the element goes in front of the first one that `cmp` puts behind it. */
    method AddInOrder(cmp: Compare, add: Element, key: string)
      requires Valid() && add !in items && !add.freed
      modifies this, buckets, add, items`prev, items`next, items`hhPrev, items`hhNext
      ensures Valid() && (buckets == old(buckets) || fresh(buckets))
      ensures items == InsertInOrder(cmp, old(items), add) && add.key == key && !add.freed
      ensures Chained(if old(items) == [] then EmptyChains() else old(chains), add, chains)
    {
      hide Linkage, Pow2, InsertInOrder, Chained, Light;
      if head != null {
        LinkageFacts(items, head, tail, buckets[..], chains);
      }
      add.hashv := hash(key);
      add.key := key;
      InsertMembers(cmp, items, add);
      AddSorted(cmp, add);
      forall i | 0 <= i < |items| ensures items[i].hashv == hash(items[i].key) && !items[i].freed {
        assert items[i] in items;
      }
    }

    /** The element, with its hash value set, enters list and table. */
    method AddSorted(cmp: Compare, add: Element)
      requires (if head == null then items == [] else Structure(null) && Balanced()) && add !in items
      modifies this, buckets, add`prev, add`next, add`hhPrev, add`hhNext
      modifies items`prev, items`next, items`hhPrev, items`hhNext
      ensures Structure(null) && Balanced() && items == InsertInOrder(cmp, old(items), add)
      ensures buckets == old(buckets) || fresh(buckets)
      ensures Chained(if old(items) == [] then EmptyChains() else old(chains), add, chains)
    {
      hide Linkage, Pow2, InsertInOrder, Chained, Light;
      InsertMembers(cmp, items, add);
      InsertIntoList(cmp, add);
      AddToTable(add);
    }

    method InsertIntoList(cmp: Compare, add: Element)
      requires (if head == null then items == [] else Structure(null) && Balanced()) && add !in items
      modifies this, add`prev, add`next, items`prev, items`next
      ensures chains == if old(items) == [] then EmptyChains() else old(chains)
      ensures Structure(add) && Balanced() && items == InsertInOrder(cmp, old(items), add)
      ensures buckets == old(buckets) || fresh(buckets)
    {
      hide Linkage, Pow2;
      if head == null {
        AddToList(add);
      } else {
        var iter: Element? := LocatePosition(cmp, head, add, items, tail, buckets[..], chains);
        if iter != null {
          InsertInFront(add, iter, InsertPosition(cmp, items, add));
        } else {
          AddToList(add);
        }
      }
    }

    method InsertInFront(add: Element, iter: Element, ghost k: nat)
      requires Structure(null) && Balanced() && add !in items && k < |items| && items[k] == iter
      modifies this`head, this`items, add`prev, add`next, items`prev, items`next
      ensures Structure(add) && Balanced() && items == old(items)[..k] + [add] + old(items)[k..]
    {
      hide Linkage, Pow2;
      ghost var bs := buckets[..];
      var head' := InsertItem(head, add, iter, k, items, tail, bs, chains);
      head := head';
      items := items[..k] + [add] + items[k..];
      assert buckets[..] == bs;
    }

    /** HASH_SRT: the order becomes that of the stable merge sort; no chain and no counter changes. */
    method Sort(cmp: Compare) returns (ghost passes: nat)
      requires Valid()
      modifies this`head, this`tail, this`items, items`prev, items`next
      ensures Valid() && items == MergeSort(cmp, old(items))
      ensures items != [] ==> passes == PassCount(|items|, 1)
    {
      hide Linkage, Pow2, MergeSort;
      passes := 0;
      SortOfNothing(cmp);
      if head != null {
        ghost var bs := buckets[..];
        ghost var sorted := MergeSort(cmp, items);
        var head', tail';
        head', tail', passes := SortItems(cmp, head, tail, items, bs, chains);
        SortMembers(cmp, items);
        head, tail, items := head', tail', sorted;
        assert buckets[..] == bs;
        forall i | 0 <= i < |items| ensures items[i].hashv == hash(items[i].key) && !items[i].freed {
          assert items[i] in old(items);
        }
      }
    }
  }

  lemma {:induction false} MinusMembers(l: seq<Element>, e: Element)
    requires Distinct(l)
    ensures forall x :: x in Minus(l, e) <==> x in l && x != e
    ensures forall i :: 0 <= i < |Minus(l, e)| ==> Minus(l, e)[i] in l
  {
    if l != [] {
      MinusMembers(l[1..], e);
      if l[0] == e {
        assert e !in l[1..];
      }
      assert l == [l[0]] + l[1..];
    }
  }

  lemma FirstItem(add: Element, bs: seq<Bucket>, chains: seq<seq<Element>>)
    requires add.next == null && add.prev == null
    requires AllLinked(bs, chains) && Slotted(chains) && chains == EmptyChains()
    ensures Linkage([add], add, add, bs, chains, add)
  {
  }
}
